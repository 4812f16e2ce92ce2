/** The first finding in document order, told by positions instead of by recursion. */
module DocumentOrder {
  import opened Json

  /** A position: the item numbers on the way down from the root. */
  type Position = seq<nat>

  /** What stands at a position: a value, or a field whose key cannot be read. */
  datatype Place = OfValue(value: Value) | OfBadField(error: SimdError)

  ghost function PlaceAt(v: Value, p: Position): Option<Place> {
    if p == [] then Some(OfValue(v))
    else if p[0] >= Size(v) then None
    else if ItemReadable(v, p[0]) then PlaceAt(Item(v, p[0]), p[1..])
    else if |p| == 1 then Some(OfBadField(v.fields[p[0]].error))
    else None
  }

  /** Document order: a container comes before its items, and an item before the next one. */
  ghost predicate Precedes(p: Position, q: Position) {
    if p == [] then q != []
    else q != [] && (p[0] < q[0] || (p[0] == q[0] && Precedes(p[1..], q[1..])))
  }

  /** What is found at a position, given what is found at each kind of place at each depth. */
  ghost function FindingAt<T>(v: Value, p: Position, depth: nat, local: (Place, nat) -> Option<T>): Option<T> {
    if PlaceAt(v, p).None? then None
    else
      match PlaceAt(v, p).value
      case OfValue(x) => local(OfValue(x), depth + |p|)
      case OfBadField(e) => local(OfBadField(e), depth + |p|)
  }

  /** Something is found at `p`, and nothing at any position before it. */
  ghost predicate FoundFirst<T>(v: Value, p: Position, depth: nat, local: (Place, nat) -> Option<T>, found: T) {
    && FindingAt(v, p, depth, local) == Some(found)
    && forall q :: Precedes(q, p) ==> FindingAt(v, q, depth, local).None?
  }

  // ---- The same by recursion

  ghost function First<T>(v: Value, depth: nat, local: (Place, nat) -> Option<T>): Option<T>
    decreases v, 1, 0
  {
    var here := local(OfValue(v), depth);
    if here.Some? then here else FirstFrom(v, 0, depth, local)
  }

  ghost function FirstFrom<T>(v: Value, i: nat, depth: nat, local: (Place, nat) -> Option<T>): Option<T>
    requires i <= Size(v)
    decreases v, 0, Size(v) - i
  {
    if i == Size(v) then None
    else
      var item := if ItemReadable(v, i) then First(Item(v, i), depth + 1, local)
                  else local(OfBadField(v.fields[i].error), depth + 1);
      if item.Some? then item else FirstFrom(v, i + 1, depth, local)
  }

  // ---- The recursion finds the first position

  lemma BelowItem<T>(v: Value, i: nat, rest: Position, depth: nat, local: (Place, nat) -> Option<T>)
    requires i < Size(v)
    ensures FindingAt(v, [i] + rest, depth, local) ==
            if ItemReadable(v, i) then FindingAt(Item(v, i), rest, depth + 1, local)
            else if rest == [] then local(OfBadField(v.fields[i].error), depth + 1) else None
  {
    assert ([i] + rest)[1..] == rest;
  }

  lemma {:induction false} FirstNone<T>(v: Value, p: Position, depth: nat, local: (Place, nat) -> Option<T>)
    requires First(v, depth, local).None?
    ensures FindingAt(v, p, depth, local).None?
    decreases |p|
  {
    if p != [] && p[0] < Size(v) {
      FirstFromNone(v, 0, p[0], depth, local);
      assert p == [p[0]] + p[1..];
      BelowItem(v, p[0], p[1..], depth, local);
      if ItemReadable(v, p[0]) {
        FirstNone(Item(v, p[0]), p[1..], depth + 1, local);
      }
    }
  }

  lemma {:induction false} FirstFromNone<T>(v: Value, i: nat, j: nat, depth: nat, local: (Place, nat) -> Option<T>)
    requires i <= j < Size(v) && FirstFrom(v, i, depth, local).None?
    ensures if ItemReadable(v, j) then First(Item(v, j), depth + 1, local).None?
            else local(OfBadField(v.fields[j].error), depth + 1).None?
    decreases j - i
  {
    if i < j {
      FirstFromNone(v, i + 1, j, depth, local);
    }
  }

  lemma {:induction false} FirstSome<T>(v: Value, depth: nat, local: (Place, nat) -> Option<T>) returns (p: Position)
    requires First(v, depth, local).Some?
    ensures FoundFirst(v, p, depth, local, First(v, depth, local).value)
    decreases v, 1, 0
  {
    if local(OfValue(v), depth).Some? {
      p := [];
    } else {
      var i, rest := FirstFromSome(v, 0, depth, local);
      p := [i] + rest;
      BelowItem(v, i, rest, depth, local);
      forall q | Precedes(q, p) ensures FindingAt(v, q, depth, local).None? {
        if q == [] {
          assert FindingAt(v, [], depth, local) == local(OfValue(v), depth);
        } else {
          assert p[0] == i && p[1..] == rest && q == [q[0]] + q[1..];
          assert q[0] <= i;
          BelowItem(v, q[0], q[1..], depth, local);
          NothingBefore(v, 0, i, q, depth, local);
          if q[0] == i {
            assert Precedes(q[1..], rest);
            if ItemReadable(v, i) {
              assert FindingAt(Item(v, i), q[1..], depth + 1, local).None?;
            }
          }
        }
      }
    }
  }

  // The item with the first finding, and the position of the finding below it.
  lemma {:induction false} FirstFromSome<T>(v: Value, i: nat, depth: nat, local: (Place, nat) -> Option<T>)
    returns (j: nat, rest: Position)
    requires i <= Size(v) && FirstFrom(v, i, depth, local).Some?
    ensures i <= j < Size(v) && ItemsEmpty(v, i, j, depth, local)
    ensures if ItemReadable(v, j)
            then FoundFirst(Item(v, j), rest, depth + 1, local, FirstFrom(v, i, depth, local).value)
            else rest == [] && local(OfBadField(v.fields[j].error), depth + 1) == FirstFrom(v, i, depth, local)
    decreases v, 0, Size(v) - i
  {
    if ItemReadable(v, i) {
      if First(Item(v, i), depth + 1, local).Some? {
        j := i;
        rest := FirstSome(Item(v, i), depth + 1, local);
      } else {
        j, rest := FirstFromSome(v, i + 1, depth, local);
      }
    } else if local(OfBadField(v.fields[i].error), depth + 1).Some? {
      j, rest := i, [];
    } else {
      j, rest := FirstFromSome(v, i + 1, depth, local);
    }
  }

  ghost predicate ItemEmpty<T>(v: Value, k: nat, depth: nat, local: (Place, nat) -> Option<T>)
    requires k < Size(v)
  {
    if ItemReadable(v, k) then First(Item(v, k), depth + 1, local).None?
    else local(OfBadField(v.fields[k].error), depth + 1).None?
  }

  ghost predicate ItemsEmpty<T>(v: Value, lo: nat, hi: nat, depth: nat, local: (Place, nat) -> Option<T>)
    requires hi <= Size(v)
  {
    forall k :: lo <= k < hi ==> ItemEmpty(v, k, depth, local)
  }

  // A position in an earlier item holds nothing.
  lemma NothingBefore<T>(v: Value, lo: nat, hi: nat, q: Position, depth: nat, local: (Place, nat) -> Option<T>)
    requires hi <= Size(v) && ItemsEmpty(v, lo, hi, depth, local) && q != []
    ensures lo <= q[0] < hi ==> FindingAt(v, q, depth, local).None?
  {
    if lo <= q[0] < hi {
      assert ItemEmpty(v, q[0], depth, local);
      assert q == [q[0]] + q[1..];
      BelowItem(v, q[0], q[1..], depth, local);
      if ItemReadable(v, q[0]) {
        FirstNone(Item(v, q[0]), q[1..], depth + 1, local);
      }
    }
  }

  /** Nothing is found recursively exactly when no position holds anything; otherwise what is found is
    * what the first position holds. */
  lemma FirstIsFirst<T>(v: Value, depth: nat, local: (Place, nat) -> Option<T>)
    ensures First(v, depth, local).None? <==> forall p :: FindingAt(v, p, depth, local).None?
    ensures forall found :: First(v, depth, local) == Some(found) ==> exists p :: FoundFirst(v, p, depth, local, found)
  {
    if First(v, depth, local).None? {
      forall p ensures FindingAt(v, p, depth, local).None? {
        FirstNone(v, p, depth, local);
      }
    } else {
      var p := FirstSome(v, depth, local);
    }
  }

  // ---- Document order is a strict total order, so there is only one first position

  lemma {:induction false} PrecedesTotal(p: Position, q: Position)
    ensures p == q || Precedes(p, q) || Precedes(q, p)
    decreases |p|
  {
    if p != [] && q != [] && p[0] == q[0] {
      PrecedesTotal(p[1..], q[1..]);
      assert p == [p[0]] + p[1..] && q == [q[0]] + q[1..];
    }
  }

  lemma FoundFirstOnce<T>(v: Value, p: Position, q: Position, depth: nat, local: (Place, nat) -> Option<T>, x: T, y: T)
    requires FoundFirst(v, p, depth, local, x) && FoundFirst(v, q, depth, local, y)
    ensures p == q && x == y
  {
    PrecedesTotal(p, q);
  }
}
