/**
 * The selection-expression parser: "1,3-5,8" or "all" becomes the ascending,
 * duplicate-free list of 1-based indices it names, bounded by `max`, or an
 * `InvalidRange` error.
 */
module RangeParser {
  import opened Wrappers
  import opened Text
  import opened Errors

  /** `(lo..=hi).collect()`: the integers from `lo` to `hi` inclusive, ascending. */
  function Span(lo: nat, hi: nat): (s: seq<nat>)
    ensures |s| == if lo <= hi then hi - lo + 1 else 0
    ensures forall k :: 0 <= k < |s| ==> s[k] == lo + k
    decreases if lo <= hi then hi - lo + 1 else 0
  {
    if lo > hi then [] else [lo] + Span(lo + 1, hi)
  }

  /** The span holds exactly the integers from `lo` to `hi`. */
  lemma SpanMembers(lo: nat, hi: nat)
    ensures forall x :: x in Span(lo, hi) <==> lo <= x <= hi
  {
    var s := Span(lo, hi);
    forall x | lo <= x <= hi ensures x in s {
      assert s[x - lo] == x;
    }
  }

  predicate Sorted(s: seq<nat>) {
    forall i, j :: 0 <= i < j < |s| ==> s[i] <= s[j]
  }

  predicate StrictlyIncreasing(s: seq<nat>) {
    forall i, j :: 0 <= i < j < |s| ==> s[i] < s[j]
  }

  /** The "all" shortcut: the trimmed input is "all" in any ASCII case. */
  predicate IsAll(input: string) {
    EqIgnoreAsciiCase(Trim(input), "all")
  }

  /** The comma-separated parts of the trimmed input, untrimmed and possibly empty. */
  function Parts(input: string): seq<string> {
    Split(Trim(input), ',')
  }

  // ---------------------------------------------------------------------------
  // What one part means, stated without reference to how it is parsed
  // ---------------------------------------------------------------------------

  /**
   * The indices a (trimmed, non-empty) part names: for `a-b`, split at the
   * first '-', every value from `a` to `b`; otherwise the single value.
   */
  predicate PartSelects(part: string, x: nat) {
    match SplitOnce(part, '-')
    case Some((a, b)) =>
      var lo, hi := ParseUsize(Trim(a)), ParseUsize(Trim(b));
      lo.Some? && hi.Some? && lo.value <= x <= hi.value
    case None => ParseUsize(part) == Some(x)
  }

  /**
   * When a part is accepted: both sides of a range, or the single token, are
   * unsigned integers, none is 0, a range is not reversed, none exceeds `max`.
   */
  predicate ValidPart(part: string, max: nat) {
    match SplitOnce(part, '-')
    case Some((a, b)) =>
      var lo, hi := ParseUsize(Trim(a)), ParseUsize(Trim(b));
      lo.Some? && hi.Some? && 1 <= lo.value <= hi.value <= max
    case None =>
      var v := ParseUsize(part);
      v.Some? && 1 <= v.value <= max
  }

  // ---------------------------------------------------------------------------
  // Reference definition of the parse, one part at a time
  // ---------------------------------------------------------------------------

  /**
   * The indices one trimmed, non-empty part contributes, or the error it
   * raises, with the checks in the source's order. It succeeds exactly on
   * valid parts, and then yields a non-empty list of exactly the indices the
   * part names, all within [1, max].
   */
  function ParsePart(part: string, max: nat): (r: Result<seq<nat>, AppError>)
    ensures r.Success? <==> ValidPart(part, max)
    ensures r.Success? ==> r.value != []
    ensures r.Success? ==> forall x :: x in r.value <==> PartSelects(part, x)
    ensures r.Success? ==> forall x :: x in r.value ==> 1 <= x <= max
    ensures r.Failure? ==> r.error.InvalidRange?
  {
    match SplitOnce(part, '-')
    case Some((startStr, endStr)) =>
      var start, end := ParseUsize(Trim(startStr)), ParseUsize(Trim(endStr));
      if start.None? || end.None? then Failure(InvalidRange("invalid number in \"" + part + "\""))
      else if start.value == 0 || end.value == 0 then Failure(InvalidRange("indices start at 1"))
      else if start.value > end.value then
        Failure(InvalidRange(Decimal(start.value) + " > " + Decimal(end.value)))
      else if end.value > max then
        Failure(InvalidRange(Decimal(end.value) + " exceeds playlist size (" + Decimal(max) + ")"))
      else
        SpanMembers(start.value, end.value);
        Success(Span(start.value, end.value))
    case None =>
      var idx := ParseUsize(part);
      if idx.None? then Failure(InvalidRange("invalid number \"" + part + "\""))
      else if idx.value == 0 then Failure(InvalidRange("indices start at 1"))
      else if idx.value > max then
        Failure(InvalidRange(Decimal(idx.value) + " exceeds playlist size (" + Decimal(max) + ")"))
      else Success([idx.value])
  }

  /**
   * The `InvalidRange` text of each rejection, in the order the checks run: an
   * unparsable side or token names the part, a zero says indices start at 1,
   * a reversed range shows both ends, and a value over `max` shows both.
   */
  lemma ParsePartErrors(part: string, max: nat)
    // The error each rejection of a range raises, checked in this order.
    ensures SplitOnce(part, '-').Some? ==>
      var lo, hi := ParseUsize(Trim(SplitOnce(part, '-').value.0)), ParseUsize(Trim(SplitOnce(part, '-').value.1));
      && (lo.None? || hi.None? ==> ParsePart(part, max) == Failure(InvalidRange("invalid number in \"" + part + "\"")))
      && (lo.Some? && hi.Some? && (lo.value == 0 || hi.value == 0) ==>
            ParsePart(part, max) == Failure(InvalidRange("indices start at 1")))
      && (lo.Some? && hi.Some? && 0 < hi.value < lo.value ==>
            ParsePart(part, max) == Failure(InvalidRange(Decimal(lo.value) + " > " + Decimal(hi.value))))
      && (lo.Some? && hi.Some? && 0 < lo.value <= hi.value && max < hi.value ==>
            ParsePart(part, max) == Failure(InvalidRange(Decimal(hi.value) + " exceeds playlist size (" + Decimal(max) + ")")))
    // The error each rejection of a single index raises.
    ensures SplitOnce(part, '-').None? ==>
      var v := ParseUsize(part);
      && (v.None? ==> ParsePart(part, max) == Failure(InvalidRange("invalid number \"" + part + "\"")))
      && (v == Some(0) ==> ParsePart(part, max) == Failure(InvalidRange("indices start at 1")))
      && (v.Some? && max < v.value ==>
            ParsePart(part, max) == Failure(InvalidRange(Decimal(v.value) + " exceeds playlist size (" + Decimal(max) + ")")))
  {
  }

  /** A part the loop rejects: not blank, and not a valid index or range. */
  predicate Rejected(part: string, max: nat) {
    Trim(part) != [] && !ValidPart(Trim(part), max)
  }

  /** A part that names `x`. */
  predicate Names(part: string, x: nat) {
    Trim(part) != [] && PartSelects(Trim(part), x)
  }

  /** What one untrimmed part contributes: nothing when blank, else its parse. */
  function Outcome(part: string, max: nat): (r: Result<seq<nat>, AppError>)
    ensures r.Failure? <==> Rejected(part, max)
    ensures r.Success? ==> forall x :: x in r.value <==> Names(part, x)
    ensures r.Success? ==> forall x :: x in r.value ==> 1 <= x <= max
    ensures r.Success? ==> (r.value == [] <==> Trim(part) == [])
  {
    if Trim(part) == [] then Success([]) else ParsePart(Trim(part), max)
  }

  /** The outcome of every part, in order. */
  function Outcomes(parts: seq<string>, max: nat): (os: seq<Result<seq<nat>, AppError>>)
    ensures |os| == |parts|
    ensures forall i :: 0 <= i < |parts| ==> os[i] == Outcome(parts[i], max)
  {
    seq(|parts|, i requires 0 <= i < |parts| => Outcome(parts[i], max))
  }

  /**
   * The parts' loop over given outcomes: the indices appended in order, or
   * the error of the first failing part.
   */
  function Fold(os: seq<Result<seq<nat>, AppError>>): Result<seq<nat>, AppError> {
    if os == [] then Success([])
    else
      match Fold(os[..|os| - 1])
      case Failure(e) => Failure(e)
      case Success(xs) =>
        match os[|os| - 1]
        case Failure(e) => Failure(e)
        case Success(ys) => Success(xs + ys)
  }

  /** One more iteration of the parts' loop. */
  lemma FoldStep(os: seq<Result<seq<nat>, AppError>>, k: nat)
    requires k < |os|
    ensures Fold(os[..k + 1]) ==
              if Fold(os[..k]).Failure? then Fold(os[..k])
              else if os[k].Failure? then Failure(os[k].error)
              else Success(Fold(os[..k]).value + os[k].value)
  {
    assert os[..k + 1][..k] == os[..k];
  }

  /** The list the parts' loop has built after the given parts, or the error it returned. */
  function Collect(parts: seq<string>, max: nat): Result<seq<nat>, AppError> {
    Fold(Outcomes(parts, max))
  }

  // ---------------------------------------------------------------------------
  // Properties of the reference definition
  // ---------------------------------------------------------------------------

  /** Once a prefix of the outcomes fails, the outcomes after it do not change the error. */
  lemma {:induction false} FoldFailureSticky(os: seq<Result<seq<nat>, AppError>>, j: nat)
    requires j <= |os| && Fold(os[..j]).Failure?
    ensures Fold(os) == Fold(os[..j])
    decreases |os|
  {
    if j == |os| {
      assert os[..j] == os;
    } else {
      var init := os[..|os| - 1];
      assert init[..j] == os[..j];
      FoldFailureSticky(init, j);
    }
  }

  /** The fold fails exactly when some outcome does, and then with the first failure's error. */
  lemma {:induction false} FoldFailsOnFirst(os: seq<Result<seq<nat>, AppError>>)
    ensures Fold(os).Failure? <==> exists i :: 0 <= i < |os| && os[i].Failure?
    ensures Fold(os).Failure? ==>
              exists i :: 0 <= i < |os| && os[i].Failure? && Fold(os).error == os[i].error
                && forall j :: 0 <= j < i ==> os[j].Success?
  {
    if os != [] {
      var n := |os| - 1;
      var init := os[..n];
      FoldFailsOnFirst(init);
      assert forall i :: 0 <= i < n ==> init[i] == os[i];
      if Fold(init).Failure? {
        var i :| 0 <= i < n && init[i].Failure? && Fold(init).error == init[i].error
                 && forall j :: 0 <= j < i ==> init[j].Success?;
        assert os[i].Failure?;
      }
    }
  }

  /** A successful fold comes from successful outcomes and holds exactly the values some outcome holds. */
  lemma {:induction false} FoldUnion(os: seq<Result<seq<nat>, AppError>>)
    requires Fold(os).Success?
    ensures forall i :: 0 <= i < |os| ==> os[i].Success?
    ensures forall x :: x in Fold(os).value <==> exists i :: 0 <= i < |os| && x in os[i].value
  {
    if os != [] {
      var n := |os| - 1;
      var init := os[..n];
      FoldUnion(init);
      var xs, ys := Fold(init).value, os[n].value;
      assert Fold(os).value == xs + ys;
      assert forall i :: 0 <= i < n ==> init[i] == os[i];
      forall x | x in xs + ys ensures exists i :: 0 <= i < |os| && x in os[i].value {
        if x in xs {
          var i :| 0 <= i < n && x in init[i].value;
          assert x in os[i].value;
        } else {
          assert x in os[n].value;
        }
      }
      forall x, i | 0 <= i < |os| && x in os[i].value ensures x in xs + ys {
        if i < n {
          assert x in init[i].value;
        }
      }
    }
  }

  /** A successful fold is empty exactly when every outcome is. */
  lemma {:induction false} FoldEmpty(os: seq<Result<seq<nat>, AppError>>)
    requires Fold(os).Success?
    ensures forall i :: 0 <= i < |os| ==> os[i].Success?
    ensures Fold(os).value == [] <==> forall i :: 0 <= i < |os| ==> os[i].value == []
  {
    if os != [] {
      var n := |os| - 1;
      var init := os[..n];
      FoldEmpty(init);
      assert Fold(os).value == Fold(init).value + os[n].value;
      assert forall i :: 0 <= i < n ==> init[i] == os[i];
    }
  }

  /**
   * The parse fails exactly when some part is rejected, and then with the
   * error of the first rejected part.
   */
  lemma CollectFailsOnFirstRejected(parts: seq<string>, max: nat)
    ensures Collect(parts, max).Failure? <==> exists i :: 0 <= i < |parts| && Rejected(parts[i], max)
    ensures Collect(parts, max).Failure? ==>
              exists i :: 0 <= i < |parts| && Rejected(parts[i], max)
                && (forall j :: 0 <= j < i ==> !Rejected(parts[j], max))
                && Collect(parts, max).error == ParsePart(Trim(parts[i]), max).error
  {
    var os := Outcomes(parts, max);
    FoldFailsOnFirst(os);
  }

  /** An index in a successful collection comes from some part that names it, so it is within [1, max]. */
  lemma CollectedIsNamed(parts: seq<string>, max: nat, x: nat)
    requires Collect(parts, max).Success? && x in Collect(parts, max).value
    ensures 1 <= x <= max
    ensures exists i :: 0 <= i < |parts| && Names(parts[i], x)
  {
    var os := Outcomes(parts, max);
    FoldUnion(os);
    var i :| 0 <= i < |os| && x in os[i].value;
    assert os[i] == Outcome(parts[i], max);
  }

  /** An index some part names is in a successful collection. */
  lemma NamedIsCollected(parts: seq<string>, max: nat, i: nat, x: nat)
    requires Collect(parts, max).Success? && i < |parts| && Names(parts[i], x)
    ensures x in Collect(parts, max).value
  {
    var os := Outcomes(parts, max);
    FoldUnion(os);
    assert os[i] == Outcome(parts[i], max);
  }

  /**
   * On success, the list holds exactly the indices that some part names
   * (the union of the single indices and the inclusive spans), each within
   * [1, max].
   */
  lemma CollectSelectsUnion(parts: seq<string>, max: nat)
    requires Collect(parts, max).Success?
    ensures forall x :: x in Collect(parts, max).value ==> 1 <= x <= max
    ensures forall x :: x in Collect(parts, max).value <==> exists i :: 0 <= i < |parts| && Names(parts[i], x)
  {
    var xs := Collect(parts, max).value;
    forall x | x in xs ensures 1 <= x <= max && exists i :: 0 <= i < |parts| && Names(parts[i], x) {
      CollectedIsNamed(parts, max, x);
    }
    forall x, i | 0 <= i < |parts| && Names(parts[i], x) ensures x in xs {
      NamedIsCollected(parts, max, i, x);
    }
  }

  /** A successful collection is empty exactly when every part is blank. */
  lemma CollectEmptyIffBlank(parts: seq<string>, max: nat)
    requires Collect(parts, max).Success?
    ensures Collect(parts, max).value == [] <==> forall i :: 0 <= i < |parts| ==> Trim(parts[i]) == []
  {
    var os := Outcomes(parts, max);
    FoldEmpty(os);
    assert forall i :: 0 <= i < |parts| ==> (os[i].value == [] <==> Trim(parts[i]) == []);
  }

  // ---------------------------------------------------------------------------
  // The imperative parser
  // ---------------------------------------------------------------------------

  /**
   * `slice::sort_unstable` on the collected indices, here as an in-place
   * insertion sort: the array ends sorted and holds the same elements.
   */
  method SortInPlace(a: array<nat>)
    modifies a
    ensures Sorted(a[..])
    ensures multiset(a[..]) == old(multiset(a[..]))
  {
    var i := 0;
    while i < a.Length
      invariant 0 <= i <= a.Length
      invariant forall p, q :: 0 <= p < q < i ==> a[p] <= a[q]
      invariant multiset(a[..]) == old(multiset(a[..]))
    {
      var j := i;
      while j > 0 && a[j - 1] > a[j]
        invariant 0 <= j <= i
        invariant forall p, q :: 0 <= p < q <= i && p != j && q != j ==> a[p] <= a[q]
        invariant forall q :: j < q <= i ==> a[j] < a[q]
        invariant multiset(a[..]) == old(multiset(a[..]))
      {
        a[j - 1], a[j] := a[j], a[j - 1];
        j := j - 1;
      }
      i := i + 1;
    }
  }

  /** One element of every run of equal neighbours, in order: what `Vec::dedup` leaves. */
  function Dedup(s: seq<nat>): seq<nat> {
    if |s| <= 1 then s
    else if s[|s| - 1] == s[|s| - 2] then Dedup(s[..|s| - 1])
    else Dedup(s[..|s| - 1]) + [s[|s| - 1]]
  }

  /**
   * Deduplication keeps the last element, drops nothing but repeats (so the
   * values are the same and only an empty input gives an empty result), and
   * leaves no two equal neighbours.
   */
  lemma {:induction false} DedupFacts(s: seq<nat>)
    ensures s != [] ==> Dedup(s) != [] && Dedup(s)[|Dedup(s)| - 1] == s[|s| - 1]
    ensures Dedup(s) == [] <==> s == []
    ensures forall x :: x in Dedup(s) <==> x in s
    ensures forall p :: 0 <= p < |Dedup(s)| - 1 ==> Dedup(s)[p] != Dedup(s)[p + 1]
  {
    if |s| > 1 {
      var init := s[..|s| - 1];
      DedupFacts(init);
      assert s == init + [s[|s| - 1]];
      assert s[|s| - 2] in init;
    }
  }

  /** Deduplicating a sorted sequence makes it strictly increasing. */
  lemma {:induction false} DedupSorted(s: seq<nat>)
    requires Sorted(s)
    ensures StrictlyIncreasing(Dedup(s))
  {
    if |s| > 1 {
      var init := s[..|s| - 1];
      assert Sorted(init);
      DedupSorted(init);
      DedupFacts(init);
      var d := Dedup(init);
      if s[|s| - 1] != s[|s| - 2] {
        forall p | 0 <= p < |d| ensures d[p] < s[|s| - 1] {
          assert d[p] in init;
        }
      }
    }
  }

  /**
   * `Vec::dedup` on the array: packs one element of every run of equal
   * neighbours at the front and returns their number; the kept prefix is
   * `Dedup` of the old contents.
   */
  method DedupInPlace(a: array<nat>) returns (len: nat)
    modifies a
    ensures len <= a.Length
    ensures a[..len] == Dedup(old(a[..]))
  {
    if a.Length == 0 {
      return 0;
    }
    ghost var src := a[..];
    assert src[..1] == [src[0]];
    len := 1;
    var r := 1;
    while r < a.Length
      invariant 1 <= len <= r <= a.Length
      invariant forall k :: r <= k < a.Length ==> a[k] == src[k]
      invariant a[..len] == Dedup(src[..r])
      invariant a[len - 1] == src[r - 1]
    {
      assert src[..r + 1][..r] == src[..r];
      if a[r] != a[len - 1] {
        a[len] := a[r];
        len := len + 1;
      }
      r := r + 1;
    }
    assert src[..r] == src;
  }

  /**
   * The loop over the comma parts: blank parts are skipped, each other part
   * is parsed and its indices appended, and the first bad part's error is
   * returned at once.
   */
  method CollectParts(parts: seq<string>, max: nat) returns (r: Result<seq<nat>, AppError>)
    ensures r == Collect(parts, max)
  {
    ghost var os := Outcomes(parts, max);
    var indices: seq<nat> := [];
    for k := 0 to |parts|
      invariant Fold(os[..k]) == Success(indices)
    {
      FoldStep(os, k);
      var part := Trim(parts[k]);
      if part == [] {
        assert os[k] == Success([]) && indices + [] == indices;
        continue;
      }
      var piece := ParsePart(part, max);
      assert os[k] == piece;
      if piece.Failure? {
        FoldFailureSticky(os, k + 1);
        return Failure(piece.error);
      }
      indices := indices + piece.value;
    }
    assert os[..|parts|] == os;
    return Success(indices);
  }

  /**
   * `sort_unstable` followed by `dedup`, on an array holding the collected
   * indices: the result is strictly increasing and holds the same values.
   */
  method SortDedup(xs: seq<nat>) returns (ys: seq<nat>)
    ensures StrictlyIncreasing(ys)
    ensures forall x :: x in ys <==> x in xs
    ensures ys == [] <==> xs == []
  {
    var a := new nat[|xs|](i requires 0 <= i < |xs| => xs[i]);
    assert a[..] == xs;
    SortInPlace(a);
    ghost var sorted := a[..];
    assert forall x :: x in sorted <==> x in xs by {
      forall x | true ensures x in sorted <==> x in xs {
        assert x in sorted <==> x in multiset(sorted);
        assert x in xs <==> x in multiset(xs);
      }
    }
    var len := DedupInPlace(a);
    ys := a[..len];
    DedupFacts(sorted);
    DedupSorted(sorted);
  }

  /**
   * What `parse_ranges` returns, given whether the input is "all" and what
   * the loop over its parts collected: "all" gives 1..=max; otherwise the
   * loop's error, "no indices selected" when nothing is collected, or else a
   * strictly increasing list holding exactly the collected indices.
   */
  ghost predicate ParsedFrom(all: bool, collected: Result<seq<nat>, AppError>, max: nat, r: Result<seq<nat>, AppError>) {
    if all then r == Success(Span(1, max))
    else if collected.Failure? then r == Failure(collected.error)
    else if collected.value == [] then r == Failure(InvalidRange("no indices selected"))
    else r.Success? && StrictlyIncreasing(r.value) && forall x :: x in r.value <==> x in collected.value
  }

  /** What `parse_ranges` returns for `input`, as a relation. */
  ghost predicate ParsedAs(input: string, max: nat, r: Result<seq<nat>, AppError>) {
    ParsedFrom(IsAll(input), Collect(Parts(input), max), max, r)
  }

  /** "all" gives the whole span; any other success names at least one index. */
  lemma ParsedFromShape(all: bool, collected: Result<seq<nat>, AppError>, max: nat, r: Result<seq<nat>, AppError>)
    requires ParsedFrom(all, collected, max, r)
    ensures all ==> r == Success(Span(1, max))
    ensures !all && r.Success? ==> r.value != []
  {
    if !all && r.Success? {
      assert collected.value[0] in collected.value;
    }
  }

  /** Two strictly increasing lists with the same members are equal. */
  lemma {:induction false} StrictlyIncreasingByMembers(a: seq<nat>, b: seq<nat>)
    requires StrictlyIncreasing(a) && StrictlyIncreasing(b)
    requires forall x :: x in a <==> x in b
    ensures a == b
    decreases |a|
  {
    if a == [] {
      assert forall k :: 0 <= k < |b| ==> b[k] in a;
    } else {
      assert a[0] in b;
      assert b != [];
      assert b[0] in a;
      assert a[0] == b[0];
      forall x ensures x in a[1..] <==> x in b[1..] {
        assert x in a[1..] <==> x in a && x != a[0];
        assert x in b[1..] <==> x in b && x != b[0];
      }
      StrictlyIncreasingByMembers(a[1..], b[1..]);
      assert a == [a[0]] + a[1..] && b == [b[0]] + b[1..];
    }
  }

  /** The relation determines the result: `parse_ranges` has one possible outcome per input. */
  lemma ParsedAsUnique(input: string, max: nat, r1: Result<seq<nat>, AppError>, r2: Result<seq<nat>, AppError>)
    requires ParsedAs(input, max, r1) && ParsedAs(input, max, r2)
    ensures r1 == r2
  {
    ParsedFromUnique(IsAll(input), Collect(Parts(input), max), max, r1, r2);
  }

  lemma ParsedFromUnique(all: bool, collected: Result<seq<nat>, AppError>, max: nat,
                         r1: Result<seq<nat>, AppError>, r2: Result<seq<nat>, AppError>)
    requires ParsedFrom(all, collected, max, r1) && ParsedFrom(all, collected, max, r2)
    ensures r1 == r2
  {
    if !all && collected.Success? && collected.value != [] {
      StrictlyIncreasingByMembers(r1.value, r2.value);
    }
  }

  /**
   * `parse_ranges`. "all" (trimmed, any ASCII case) gives 1..=max, possibly
   * empty. Otherwise the comma parts are collected, the list is sorted and
   * deduplicated, and an empty result is the "no indices selected" error.
   * A success is strictly increasing and within [1, max], and holds exactly
   * the indices the parts name.
   */
  method ParseRanges(input: string, max: nat) returns (r: Result<seq<nat>, AppError>)
    ensures ParsedAs(input, max, r)
    ensures r.Success? ==> StrictlyIncreasing(r.value)
    ensures r.Success? ==> forall x :: x in r.value ==> 1 <= x <= max
  {
    if IsAll(input) {
      return Success(Span(1, max));
    }
    var parts := Parts(input);
    var collected := CollectParts(parts, max);
    if collected.Failure? {
      return Failure(collected.error);
    }
    assert forall x :: x in collected.value ==> 1 <= x <= max by {
      CollectSelectsUnion(parts, max);
    }
    var indices := SortDedup(collected.value);
    if indices == [] {
      return Failure(InvalidRange("no indices selected"));
    }
    return Success(indices);
  }

  // ---------------------------------------------------------------------------
  // The unit tests' cases
  // ---------------------------------------------------------------------------

  /** "0" is rejected: indices start at 1. */
  lemma ZeroPartRejected()
    ensures ParsePart("0", 10) == Failure(InvalidRange("indices start at 1"))
  {
    assert SplitOnce("0", '-') == None;
    assert ParseUsize("0") == Some(0) by {
      assert "0"[..0] == [];
    }
  }

  /** "11" is rejected when there are 10 items. */
  lemma OverMaxPartRejected()
    ensures ParsePart("11", 10).Failure?
  {
    assert SplitOnce("11", '-') == None;
    assert ParseUsize("11") == Some(11) by {
      assert "11"[..1] == "1" && "1"[..0] == [];
    }
  }

  /** "3-5" selects 3, 4 and 5, in order. */
  lemma SpanPartExample()
    ensures ParsePart("3-5", 10) == Success([3, 4, 5])
  {
    SpanPartParses();
    SpanThreeToFive();
  }

  lemma SpanPartParses()
    ensures ParsePart("3-5", 10) == Success(Span(3, 5))
  {
    SpanPartPieces();
  }

  /** The pieces of "3-5": the halves around the dash, each already trimmed, and their values. */
  lemma SpanPartPieces()
    ensures SplitOnce("3-5", '-') == Some(("3", "5"))
    ensures Trim("3") == "3" && Trim("5") == "5"
    ensures ParseUsize("3") == Some(3) && ParseUsize("5") == Some(5)
  {
    DashSplit();
    TrimTrimmed("3");
    TrimTrimmed("5");
    SingleDigits();
  }

  lemma DashSplit()
    ensures SplitOnce("3-5", '-') == Some(("3", "5"))
  {
    SplitOnceAt("3", '-', "5");
    assert "3" + ['-'] + "5" == "3-5";
  }

  lemma SingleDigits()
    ensures ParseUsize("3") == Some(3) && ParseUsize("5") == Some(5)
  {
    assert "3"[..0] == [] && "5"[..0] == [];
  }

  lemma SpanThreeToFive()
    ensures Span(3, 5) == [3, 4, 5]
  {
    var s := Span(3, 5);
    assert s[0] == 3 && s[1] == 4 && s[2] == 5;
  }

  /** Sorted "1,1,2" deduplicates to [1, 2]. */
  lemma DedupExample()
    ensures Dedup([1, 1, 2]) == [1, 2]
  {
    assert [1, 1, 2][..2] == [1, 1];
    assert [1, 1][..1] == [1];
  }
}
