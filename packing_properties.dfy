/**
 * What the first-fit placement guarantees about the packages it closes: every item is
 * placed exactly once, no package exceeds the capacity, no package is empty, there are
 * no more packages than items, and a package closed before it was full has no room for
 * any item placed after it.
 */
module PackingProperties {
  import opened Constants
  import opened Wrappers
  import opened Text
  import opened Packages
  import opened Packager

  /** The sizes of all packages, package after package. */
  function Flatten(packages: seq<seq<int>>): seq<int> {
    if packages == [] then [] else packages[0] + Flatten(packages[1..])
  }

  lemma {:induction false} FlattenLength(packages: seq<seq<int>>)
    requires AllNonEmpty(packages)
    ensures |packages| <= |Flatten(packages)|
  {
    if packages != [] {
      ConsPackage(packages[0], packages[1..]);
      assert packages == [packages[0]] + packages[1..];
      FlattenLength(packages[1..]);
    }
  }

  lemma {:induction false} InFlatten(packages: seq<seq<int>>, j: nat, x: int)
    requires j < |packages| && x in packages[j]
    ensures x in multiset(Flatten(packages))
  {
    if j > 0 {
      InFlatten(packages[1..], j - 1, x);
    }
  }

  /** No package holds more than the capacity. */
  predicate AllWithinCapacity(packages: seq<seq<int>>) {
    forall k :: 0 <= k < |packages| ==> Sum(packages[k]) <= MAX_SIZE
  }

  /** No package is empty. */
  predicate AllNonEmpty(packages: seq<seq<int>>) {
    forall k :: 0 <= k < |packages| ==> packages[k] != []
  }

  lemma ConsPackage(p: seq<int>, rest: seq<seq<int>>)
    ensures AllWithinCapacity([p] + rest) <==> Sum(p) <= MAX_SIZE && AllWithinCapacity(rest)
    ensures AllNonEmpty([p] + rest) <==> p != [] && AllNonEmpty(rest)
  {
    var packages := [p] + rest;
    assert packages[0] == p;
    assert forall k :: 0 <= k < |rest| ==> rest[k] == packages[k + 1];
    assert forall k :: 1 <= k < |packages| ==> packages[k] == rest[k - 1];
  }

  /**
   * A package closed while it was not full has no room for any item of a package closed
   * after it.
   */
  predicate ClosedByFirstFit(packages: seq<seq<int>>) {
    forall i, j, x :: 0 <= i < j < |packages| && x in packages[j] && Sum(packages[i]) < MAX_SIZE ==>
      Sum(packages[i]) + x > MAX_SIZE
  }

  /** If `p` is not full, no item of `rest` fits in it. */
  predicate NoLaterFits(p: seq<int>, rest: seq<seq<int>>) {
    Sum(p) < MAX_SIZE ==> forall j, x :: 0 <= j < |rest| && x in rest[j] ==> Sum(p) + x > MAX_SIZE
  }

  lemma ConsFirstFit(p: seq<int>, rest: seq<seq<int>>)
    requires ClosedByFirstFit(rest) && NoLaterFits(p, rest)
    ensures ClosedByFirstFit([p] + rest)
  {
    var packages := [p] + rest;
    assert packages[0] == p;
    assert forall k :: 1 <= k < |packages| ==> packages[k] == rest[k - 1];
  }

  /**
   * The packages still to be closed hold the sizes of the current package and of the
   * unplaced items, each exactly once.
   */
  lemma {:induction false} PlaceAllMultiset(sizes: seq<int>, placed: seq<bool>, cur: seq<int>)
    requires |placed| == |sizes| && Bounded(sizes)
    requires AllPlaced(placed) ==> cur == []
    ensures multiset(Flatten(PlaceAll(sizes, placed, cur))) == multiset(cur) + UnplacedBag(sizes, placed)
    decreases |UnplacedBag(sizes, placed)|, if cur == [] then 0 else 1
  {
    AllPlacedIffEmpty(sizes, placed);
    if !AllPlaced(placed) {
      StepProgress(sizes, placed, cur);
      PlaceAllStep(sizes, placed, cur);
      var placed', cur' := NextPlaced(sizes, placed, cur), NextCur(sizes, placed, cur);
      StepMultiset(sizes, placed, cur);
      if Closes(sizes, placed, cur) {
        PlaceAllMultiset(sizes, placed', []);
        var rest := PlaceAll(sizes, placed', []);
        assert ([cur'] + rest)[1..] == rest;
        assert Flatten([cur'] + rest) == cur' + Flatten(rest);
      } else {
        PlaceAllMultiset(sizes, placed', cur');
      }
    }
  }

  /** A step moves one size, if any, from the unplaced items to the current package. */
  lemma StepMultiset(sizes: seq<int>, placed: seq<bool>, cur: seq<int>)
    requires |placed| == |sizes|
    ensures multiset(NextCur(sizes, placed, cur)) + UnplacedBag(sizes, NextPlaced(sizes, placed, cur)) ==
            multiset(cur) + UnplacedBag(sizes, placed)
  {
    var found := NextFound(sizes, placed, cur);
    if found.Some? {
      PlaceOne(sizes, placed, found.value);
      assert multiset(cur + [sizes[found.value]]) == multiset(cur) + multiset{sizes[found.value]};
    }
  }

  /** A current package within the capacity leads to packages within the capacity. */
  lemma {:induction false} PlaceAllCapacity(sizes: seq<int>, placed: seq<bool>, cur: seq<int>)
    requires |placed| == |sizes| && Bounded(sizes)
    requires Sum(cur) <= MAX_SIZE
    ensures AllWithinCapacity(PlaceAll(sizes, placed, cur))
    decreases |UnplacedBag(sizes, placed)|, if cur == [] then 0 else 1
  {
    if !AllPlaced(placed) {
      StepProgress(sizes, placed, cur);
      PlaceAllStep(sizes, placed, cur);
      var placed', cur' := NextPlaced(sizes, placed, cur), NextCur(sizes, placed, cur);
      if NextFound(sizes, placed, cur).Some? {
        SumAppend(cur, sizes[NextFound(sizes, placed, cur).value]);
      }
      assert Sum(cur') <= MAX_SIZE;
      if Closes(sizes, placed, cur) {
        PlaceAllCapacity(sizes, placed', []);
        ConsPackage(cur', PlaceAll(sizes, placed', []));
      } else {
        PlaceAllCapacity(sizes, placed', cur');
      }
    }
  }

  /** Every package closed holds at least one item. */
  lemma {:induction false} PlaceAllNonEmpty(sizes: seq<int>, placed: seq<bool>, cur: seq<int>)
    requires |placed| == |sizes| && Bounded(sizes)
    ensures AllNonEmpty(PlaceAll(sizes, placed, cur))
    decreases |UnplacedBag(sizes, placed)|, if cur == [] then 0 else 1
  {
    if !AllPlaced(placed) {
      StepProgress(sizes, placed, cur);
      PlaceAllStep(sizes, placed, cur);
      var placed', cur' := NextPlaced(sizes, placed, cur), NextCur(sizes, placed, cur);
      if Closes(sizes, placed, cur) {
        PlaceAllNonEmpty(sizes, placed', []);
        ConsPackage(cur', PlaceAll(sizes, placed', []));
      } else {
        PlaceAllNonEmpty(sizes, placed', cur');
      }
    }
  }

  /**
   * The package closed when nothing fits it leaves only items too large for it: every later
   * item comes from the unplaced ones, none of which fits.
   */
  lemma LaterItemsDoNotFit(sizes: seq<int>, placed: seq<bool>, cur: seq<int>, rest: seq<seq<int>>)
    requires |placed| == |sizes|
    requires NextFound(sizes, placed, cur).None?
    requires multiset(Flatten(rest)) == UnplacedBag(sizes, placed)
    ensures NoLaterFits(cur, rest)
  {
    forall j, x | 0 <= j < |rest| && x in rest[j]
      ensures Sum(cur) + x > MAX_SIZE
    {
      InFlatten(rest, j, x);
      InUnplacedBag(sizes, placed, x);
      var k :| 0 <= k < |sizes| && !placed[k] && sizes[k] == x;
      assert !Fits(Sum(cur), sizes[k], MAX_SIZE);
    }
  }

  /** When every item is placed, nothing is left for later packages. */
  lemma NothingLeft(sizes: seq<int>, placed: seq<bool>)
    requires |placed| == |sizes| && Bounded(sizes) && AllPlaced(placed)
    ensures PlaceAll(sizes, placed, []) == []
  {
  }

  /** The packages are closed by the first-fit rule. */
  lemma {:induction false} PlaceAllFirstFit(sizes: seq<int>, placed: seq<bool>, cur: seq<int>)
    requires |placed| == |sizes| && Bounded(sizes)
    requires AllPlaced(placed) ==> cur == []
    ensures ClosedByFirstFit(PlaceAll(sizes, placed, cur))
    decreases |UnplacedBag(sizes, placed)|, if cur == [] then 0 else 1
  {
    if !AllPlaced(placed) {
      StepProgress(sizes, placed, cur);
      PlaceAllStep(sizes, placed, cur);
      var placed', cur' := NextPlaced(sizes, placed, cur), NextCur(sizes, placed, cur);
      if Closes(sizes, placed, cur) {
        PlaceAllFirstFit(sizes, placed', []);
        var rest := PlaceAll(sizes, placed', []);
        if NextFound(sizes, placed, cur).None? {
          PlaceAllMultiset(sizes, placed', []);
          LaterItemsDoNotFit(sizes, placed, cur, rest);
        } else if AllPlaced(placed') {
          NothingLeft(sizes, placed');
        }
        ConsFirstFit(cur', rest);
      } else {
        PlaceAllFirstFit(sizes, placed', cur');
      }
    }
  }

  /**
   * Every package the whole packer produces: the digits of the argument are placed exactly
   * once, in at most as many packages as there are digits, each package non-empty and within
   * the capacity, and a package closed before it was full has no room for a later item.
   */
  lemma PackSpecProperties(args: Args)
    requires PackSpec(args).Success?
    ensures ValidateRaw(args).Success? && AllDigits(ValidateRaw(args).value)
    ensures var digits := ParseDigits(ValidateRaw(args).value).value;
            var packages := PackSpec(args).value;
            && multiset(Flatten(packages)) == multiset(digits)
            && |packages| <= |digits|
            && AllNonEmpty(packages)
            && AllWithinCapacity(packages)
            && ClosedByFirstFit(packages)
  {
    var sizes := OrderedDescSizes(ValidateRaw(args).value).value;
    var none := NonePlaced(|sizes|);
    PlaceAllMultiset(sizes, none, []);
    PlaceAllCapacity(sizes, none, []);
    PlaceAllNonEmpty(sizes, none, []);
    PlaceAllFirstFit(sizes, none, []);
    UnplacedNone(sizes);
    var packages := PackSpec(args).value;
    FlattenLength(packages);
    assert |Flatten(packages)| == |multiset(Flatten(packages))| == |multiset(sizes)| == |sizes|;
  }

  /**
   * The display of the packer's packages, cut at the delimiter, gives one part per package,
   * and each part parses back into the digits of its package.
   */
  lemma PackSpecDisplayRoundTrip(args: Args)
    requires PackSpec(args).Success?
    ensures var packages := PackSpec(args).value;
            var parts := Split(RenderAll(packages), '/');
            |parts| == |packages| &&
            forall k :: 0 <= k < |packages| ==> ParseDigits(parts[k]) == Success(packages[k])
  {
    PackSpecProperties(args);
    var digits := ParseDigits(ValidateRaw(args).value).value;
    var packages := PackSpec(args).value;
    forall k, i | 0 <= k < |packages| && 0 <= i < |packages[k]|
      ensures 0 <= packages[k][i] <= 9
    {
      InFlatten(packages, k, packages[k][i]);
      assert packages[k][i] in multiset(digits);
    }
    assert digits != [] && |digits| > 0;
    assert multiset(Flatten(packages)) != multiset{};
    RenderAllRoundTrip(packages);
  }

  /** With nothing placed, every size is unplaced. */
  lemma {:induction false} UnplacedNone(sizes: seq<int>)
    ensures UnplacedBag(sizes, NonePlaced(|sizes|)) == multiset(sizes)
  {
    if sizes != [] {
      var n := |sizes| - 1;
      assert NonePlaced(|sizes|)[..n] == NonePlaced(n);
      UnplacedNone(sizes[..n]);
      assert sizes == sizes[..n] + [sizes[n]];
    }
  }

  /** Every size of every package is a digit value. */
  predicate DigitPackages(packages: seq<seq<int>>) {
    forall k, i :: 0 <= k < |packages| && 0 <= i < |packages[k]| ==> 0 <= packages[k][i] <= 9
  }

  /** Parsing the rendering of one package of digit sizes gives its sizes back. */
  lemma ParseRenderSizes(sizes: seq<int>)
    requires forall i :: 0 <= i < |sizes| ==> 0 <= sizes[i] <= 9
    ensures AllDigits(RenderSizes(sizes)) && '/' !in RenderSizes(sizes)
    ensures ParseDigits(RenderSizes(sizes)) == Success(sizes)
  {
    RenderDigitSizes(sizes);
    var text := RenderSizes(sizes);
    assert forall i :: 0 <= i < |text| ==> IsDigit(text[i]);
    assert ParseDigits(text).value == sizes;
  }

  /**
   * The display of a non-empty list of packages, cut at the delimiter, gives one part per
   * package, and each part parses back into the sizes of its package.
   */
  lemma RenderAllRoundTrip(packages: seq<seq<int>>)
    requires packages != [] && DigitPackages(packages)
    ensures var parts := Split(RenderAll(packages), '/');
            |parts| == |packages| &&
            forall k :: 0 <= k < |packages| ==> ParseDigits(parts[k]) == Success(packages[k])
  {
    var texts := seq(|packages|, k requires 0 <= k < |packages| => RenderSizes(packages[k]));
    forall k | 0 <= k < |packages|
      ensures '/' !in texts[k] && ParseDigits(texts[k]) == Success(packages[k])
    {
      ParseRenderSizes(packages[k]);
    }
    assert DELIMITER == ['/'];
    SplitJoin(texts, '/');
  }
}
