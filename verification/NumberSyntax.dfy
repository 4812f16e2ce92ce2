/** The hand-written number scanner against the grammar of RFC 8259. */
module NumberSyntax {
  import opened Json

  predicate Whitespace(b: Byte) {
    b == 0x20 || b == 0x09 || b == 0x0D || b == 0x0A
  }

  predicate Digit(b: Byte) {
    0x30 <= b <= 0x39
  }

  predicate Digits(s: Bytes) {
    forall k :: 0 <= k < |s| ==> Digit(s[k])
  }

  // ---- Section 6 of RFC 8259: number = [ minus ] int [ frac ] [ exp ]

  predicate IsMinus(s: Bytes) {
    s == [] || s == [0x2D]
  }

  predicate IsInt(s: Bytes) {
    s == [0x30] || (s != [] && s[0] != 0x30 && Digits(s))
  }

  predicate IsFrac(s: Bytes) {
    s == [] || (|s| >= 2 && s[0] == 0x2E && Digits(s[1..]))
  }

  predicate IsExp(s: Bytes) {
    s == [] || (|s| >= 2 && (s[0] == 0x65 || s[0] == 0x45) && ExpTail(s[1..]))
  }

  predicate ExpTail(s: Bytes) {
    (s != [] && Digits(s)) || (|s| >= 2 && (s[0] == 0x2B || s[0] == 0x2D) && Digits(s[1..]))
  }

  ghost predicate Splits(s: Bytes, i: nat, f: nat, e: nat) {
    && i <= f <= e <= |s|
    && IsMinus(s[..i]) && IsInt(s[i..f]) && IsFrac(s[f..e]) && IsExp(s[e..])
  }

  ghost predicate IsNumber(s: Bytes) {
    exists i: nat, f: nat, e: nat :: Splits(s, i, f, e)
  }

  /** A token is a number once surrounding whitespace (section 2 of RFC 8259) is removed. */
  ghost predicate IsPaddedNumber(token: Bytes) {
    exists start: nat, end: nat :: TrimmedTo(token, start, end) && IsNumber(token[start..end])
  }

  ghost predicate TrimmedTo(token: Bytes, start: nat, end: nat) {
    && start <= end <= |token|
    && (forall k :: 0 <= k < start ==> Whitespace(token[k]))
    && (forall k :: end <= k < |token| ==> Whitespace(token[k]))
    && (start < end ==> !Whitespace(token[start]) && !Whitespace(token[end - 1]))
  }

  // ---- Facts about the grammar the scanner relies on

  // The end of the maximal run of digits starting at `from`.
  ghost function DigitsEnd(s: Bytes, from: nat): (end: nat)
    requires from <= |s|
    ensures from <= end <= |s|
    ensures forall k :: from <= k < end ==> Digit(s[k])
    ensures end < |s| ==> !Digit(s[end])
    decreases |s| - from
  {
    if from < |s| && Digit(s[from]) then DigitsEnd(s, from + 1) else from
  }

  lemma DigitsEndUnique(s: Bytes, from: nat, end: nat)
    requires from <= end <= |s|
    requires forall k :: from <= k < end ==> Digit(s[k])
    requires end < |s| ==> !Digit(s[end])
    ensures DigitsEnd(s, from) == end
  {
  }

  // Where each part of a number must stop, whatever the split: the scanner has no choice.
  ghost function MinusEnd(s: Bytes): (i: nat)
    ensures i <= |s|
  {
    if s != [] && s[0] == 0x2D then 1 else 0
  }

  ghost function IntEnd(s: Bytes, i: nat): (f: nat)
    requires i <= |s|
    ensures i <= f <= |s|
  {
    if i < |s| && s[i] == 0x30 then i + 1 else DigitsEnd(s, i)
  }

  ghost function FracEnd(s: Bytes, f: nat): (e: nat)
    requires f <= |s|
    ensures f <= e <= |s|
  {
    if f < |s| && s[f] == 0x2E then DigitsEnd(s, f + 1) else f
  }

  lemma SplitIsForced(s: Bytes, i: nat, f: nat, e: nat)
    requires Splits(s, i, f, e)
    ensures i == MinusEnd(s) && f == IntEnd(s, i) && e == FracEnd(s, f)
  {
    assert s[i..f][0] == s[i];
    if i == 1 {
      assert s[..i][0] == s[0];
    }
    assert forall k :: i <= k < f ==> Digit(s[k]) by {
      forall k | i <= k < f ensures Digit(s[k]) {
        assert s[i..f][k - i] == s[k];
      }
    }
    StopsBefore(s, f, e);
    if s[i] != 0x30 {
      DigitsEndUnique(s, i, f);
    }
    if f < e {
      assert s[f..e][0] == s[f];
      forall k | f + 1 <= k < e ensures Digit(s[k]) {
        assert s[f..e][1..][k - f - 1] == s[k];
      }
      if e < |s| {
        assert s[e..][0] == s[e];
      }
      DigitsEndUnique(s, f + 1, e);
    } else if e < |s| {
      assert s[e..][0] == s[e];
    }
  }

  // Neither a fraction nor an exponent starts with a digit.
  lemma StopsBefore(s: Bytes, f: nat, e: nat)
    requires f <= e <= |s| && IsFrac(s[f..e]) && IsExp(s[e..])
    ensures f < |s| ==> !Digit(s[f])
  {
    if f < e {
      assert s[f..e][0] == s[f];
    } else if f < |s| {
      assert s[e..][0] == s[f];
    }
  }

  lemma TrimIsUnique(token: Bytes, a: nat, b: nat, c: nat, d: nat)
    requires TrimmedTo(token, a, b) && TrimmedTo(token, c, d)
    requires a < b
    ensures a == c && b == d
  {
    var first := token[a];
    assert c == d ==> Whitespace(first);
  }

  // ---- The scanner

  method ValidJsonNumberSyntax(token: Bytes) returns (valid: bool)
    ensures valid <==> IsPaddedNumber(token)
  {
    var start, end := 0, |token|;
    while start < end && Whitespace(token[start])
      invariant 0 <= start <= end == |token|
      invariant forall k :: 0 <= k < start ==> Whitespace(token[k])
    {
      start := start + 1;
    }
    while end > start && Whitespace(token[end - 1])
      invariant start <= end <= |token|
      invariant start < end ==> !Whitespace(token[start])
      invariant forall k :: end <= k < |token| ==> Whitespace(token[k])
    {
      end := end - 1;
    }
    if start == end {
      EmptyIsNoNumber(token);
      return false;
    }
    assert TrimmedTo(token, start, end);
    valid := ScanTrimmed(token[start..end]);
    if IsPaddedNumber(token) {
      var c: nat, d: nat :| TrimmedTo(token, c, d) && IsNumber(token[c..d]);
      TrimIsUnique(token, start, end, c, d);
    }
  }

  lemma EmptyIsNoNumber(token: Bytes)
    requires forall k :: 0 <= k < |token| ==> Whitespace(token[k])
    ensures !IsPaddedNumber(token)
  {
  }

  method SkipDigits(s: Bytes, from: nat) returns (position: nat)
    requires from <= |s|
    ensures position == DigitsEnd(s, from)
  {
    position := from;
    while position < |s| && Digit(s[position])
      invariant from <= position <= |s|
      invariant forall k :: from <= k < position ==> Digit(s[k])
    {
      position := position + 1;
    }
    DigitsEndUnique(s, from, position);
  }

  method ScanTrimmed(s: Bytes) returns (valid: bool)
    requires s != []
    ensures valid <==> IsNumber(s)
  {
    NumberByForcedSplit(s);
    var position := 0;
    if s[position] == 0x2D {
      position := position + 1;
      if position == |s| {
        return false;
      }
    }
    ghost var i := position;
    if s[position] == 0x30 {
      position := position + 1;
    } else if 0x31 <= s[position] <= 0x39 {
      position := SkipDigits(s, position);
    } else {
      assert !IsInt(s[i..IntEnd(s, i)]);
      return false;
    }
    IntUpToEnd(s, i);
    ghost var f := position;
    if position < |s| && s[position] == 0x2E {
      var fractionStart := position + 1;
      position := SkipDigits(s, fractionStart);
      if position == fractionStart {
        return false;
      }
    }
    FracUpToEnd(s, f);
    assert i == MinusEnd(s) && f == IntEnd(s, i) && position == FracEnd(s, f);
    valid := ScanExponent(s, position);
  }

  lemma IntUpToEnd(s: Bytes, i: nat)
    requires i < |s| && Digit(s[i])
    ensures IsInt(s[i..IntEnd(s, i)])
  {
    var part := s[i..IntEnd(s, i)];
    assert part[0] == s[i];
    forall k | 0 <= k < |part| ensures Digit(part[k]) {
      assert part[k] == s[i + k];
    }
  }

  // A fraction is missing only when no digit follows the point.
  lemma FracUpToEnd(s: Bytes, f: nat)
    requires f <= |s|
    ensures IsFrac(s[f..FracEnd(s, f)]) <==> !(f < |s| && s[f] == 0x2E && FracEnd(s, f) == f + 1)
  {
    var part := s[f..FracEnd(s, f)];
    if f < |s| && s[f] == 0x2E {
      assert part[0] == s[f];
      forall k | 0 <= k < |part| - 1 ensures Digit(part[1..][k]) {
        assert part[1..][k] == s[f + 1 + k];
      }
    }
  }

  method ScanExponent(s: Bytes, e: nat) returns (valid: bool)
    requires e <= |s|
    ensures valid <==> IsExp(s[e..])
  {
    var position := e;
    if position < |s| && (s[position] == 0x65 || s[position] == 0x45) {
      position := position + 1;
      if position < |s| && (s[position] == 0x2B || s[position] == 0x2D) {
        position := position + 1;
      }
      var exponentStart := position;
      position := SkipDigits(s, exponentStart);
      ghost var tail := s[e..][1..];
      assert forall k :: e < k < |s| ==> tail[k - e - 1] == s[k];
      if position == exponentStart {
        return false;
      }
      if position < |s| {
        assert !Digit(tail[position - e - 1]);
      }
      return position == |s|;
    }
    return position == |s|;
  }

  // Any split has to stop where the scanner stops, so one candidate decides.
  lemma NumberByForcedSplit(s: Bytes)
    ensures
      var i := MinusEnd(s);
      var f := IntEnd(s, i);
      var e := FracEnd(s, f);
      IsNumber(s) <==> Splits(s, i, f, e)
  {
    if IsNumber(s) {
      var i: nat, f: nat, e: nat :| Splits(s, i, f, e);
      SplitIsForced(s, i, f, e);
    }
  }
}
