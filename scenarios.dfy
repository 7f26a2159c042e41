/**
 * Concrete cases of the items, the packages and the packer, with the values they produce.
 */
module Scenarios {
  import opened Constants
  import opened Wrappers
  import opened Items
  import opened Packages
  import opened Packager

  /** A new item is not added; adding it to a new, empty package makes one item and sets its flag. */
  method ItemIsAdded() returns (addedAtCreation: bool, emptyAtStart: bool, count: int, addedAfter: bool)
    ensures !addedAtCreation && emptyAtStart && count == 1 && addedAfter
  {
    var packageToTest := new Package();
    var itemToAdd := new Item(3);
    addedAtCreation := itemToAdd.added;
    emptyAtStart := packageToTest.items == [];
    packageToTest.AddItem(itemToAdd);
    count := |packageToTest.items|;
    addedAfter := itemToAdd.added;
  }

  /**
   * An empty package accepts items of size 3 and 10 but not 13; once it holds 3 and 6 it
   * does not accept 2.
   */
  method PackageAcceptsWithinCapacity()
    returns (accept3: bool, accept10: bool, accept13: bool, accept3Again: bool, accept6: bool, accept2: bool)
    ensures accept3 && accept10 && !accept13 && accept3Again && accept6 && !accept2
  {
    var packageToTest := new Package();
    var item3 := new Item(3);
    var item10 := new Item(10);
    var item13 := new Item(13);
    accept3 := packageToTest.Accept(item3);
    accept10 := packageToTest.Accept(item10);
    accept13 := packageToTest.Accept(item13);
    var three := new Item(3);
    accept3Again := packageToTest.Accept(three);
    packageToTest.AddItem(three);
    var six := new Item(6);
    accept6 := packageToTest.Accept(six);
    packageToTest.AddItem(six);
    var two := new Item(2);
    accept2 := packageToTest.Accept(two);
  }

  /** Adding 2, 3 and 4 leaves the package not full; a second 4 fills it, with four items. */
  method PackageDetectsWhenFull() returns (full1: bool, full2: bool, full3: bool, full4: bool, count: int)
    ensures !full1 && !full2 && !full3 && full4 && count == 4
  {
    var packageToTest := new Package();
    var item := new Item(2);
    packageToTest.AddItem(item);
    full1 := packageToTest.IsFull();
    item := new Item(3);
    packageToTest.AddItem(item);
    full2 := packageToTest.IsFull();
    item := new Item(4);
    packageToTest.AddItem(item);
    full3 := packageToTest.IsFull();
    item := new Item(4);
    packageToTest.AddItem(item);
    full4 := packageToTest.IsFull();
    count := |packageToTest.items|;
  }

  /** The total after adding 2, 4 and 12 is 2, then 6, then 18: adding does not check the capacity. */
  method PackageCalculatesItsSize() returns (total1: int, total2: int, total3: int)
    ensures total1 == 2 && total2 == 6 && total3 == 18
  {
    var packageToTest := new Package();
    var item := new Item(2);
    packageToTest.AddItem(item);
    total1 := packageToTest.ItemsTotalSize();
    item := new Item(4);
    packageToTest.AddItem(item);
    total2 := packageToTest.ItemsTotalSize();
    item := new Item(12);
    packageToTest.AddItem(item);
    total3 := packageToTest.ItemsTotalSize();
  }

  /**
   * A new package holds 0 and is not full; at 9 it is not full, accepts 1 and refuses 2;
   * at 10 it is full.
   */
  method CapacityBoundary()
    returns (emptyTotal: int, emptyFull: bool, nineFull: bool, accept1: bool, accept2: bool, tenFull: bool)
    ensures emptyTotal == 0 && !emptyFull && !nineFull && accept1 && !accept2 && tenFull
  {
    var packageToTest := new Package();
    emptyTotal := packageToTest.ItemsTotalSize();
    emptyFull := packageToTest.IsFull();
    var nine := new Item(9);
    packageToTest.AddItem(nine);
    nineFull := packageToTest.IsFull();
    var one := new Item(1);
    var two := new Item(2);
    accept1 := packageToTest.Accept(one);
    accept2 := packageToTest.Accept(two);
    packageToTest.AddItem(one);
    tenFull := packageToTest.IsFull();
  }

  /** Items of size 2, 4 and 12 display as "2412". */
  method DisplayStringIsOk() returns (s: string)
    ensures s == "2412"
  {
    var packageToTest := new Package();
    var item := new Item(2);
    packageToTest.AddItem(item);
    item := new Item(4);
    packageToTest.AddItem(item);
    item := new Item(12);
    packageToTest.AddItem(item);
    s := packageToTest.ToDisplayString();
    assert Sizes(packageToTest.items) == [2, 4, 12];
    Display2412();
  }

  /** Packages holding 2, 4 and 3, 8 display as "24/38"; no package displays as "". */
  method AllConcatIsOk() returns (s: string, none: string)
    ensures s == "24/38" && none == ""
  {
    var packageToTest := PackageOfTwo(2, 4);
    var packageToTest2 := PackageOfTwo(3, 8);
    var packages := [packageToTest, packageToTest2];
    PackageSizesPair(packageToTest, packageToTest2);
    Display24Slash38();
    s := Package.DisplayAll(packages);
    none := Package.DisplayAll([]);
  }

  lemma PackageSizesPair(p: Package, q: Package)
    ensures PackageSizes([p, q]) == [Sizes(p.items), Sizes(q.items)]
  {
    assert [p, q][..1] == [p];
  }

  /** A new package to which items of sizes `a` and `b` were added. */
  method PackageOfTwo(a: int, b: int) returns (p: Package)
    ensures fresh(p) && Sizes(p.items) == [a, b]
  {
    p := new Package();
    var first := new Item(a);
    p.AddItem(first);
    assert p.items == [first];
    var second := new Item(b);
    p.AddItem(second);
    assert p.items == [first, second];
    assert Sizes([first, second]) == Sizes([first]) + [b];
  }

  /** The decimal texts the display scenarios observe; 12 is written with two digits. */
  lemma SmallDecimals()
    ensures Text.IntToDecimal(2) == "2" && Text.IntToDecimal(3) == "3"
    ensures Text.IntToDecimal(4) == "4" && Text.IntToDecimal(8) == "8"
    ensures Text.IntToDecimal(12) == "12"
  {
    assert Text.DigitChar(1) == '1' && Text.DigitChar(2) == '2' && Text.DigitChar(3) == '3';
    assert Text.DigitChar(4) == '4' && Text.DigitChar(8) == '8';
    assert Text.NatToDecimal(12) == Text.NatToDecimal(1) + [Text.DigitChar(2)];
  }

  /** Sizes 2, 4, 12 render as "2412". */
  lemma Display2412()
    ensures RenderSizes([2, 4, 12]) == "2412"
  {
    SmallDecimals();
    var p := ["2", "4", "12"];
    assert seq(3, k requires 0 <= k < 3 => Text.IntToDecimal([2, 4, 12][k])) == p;
    assert Text.Concat(p[2..]) == "12";
    assert Text.Concat(p[1..]) == "412";
  }

  /** Two sizes render as their two decimal texts, one after the other. */
  lemma DisplayPair(a: int, b: int)
    ensures RenderSizes([a, b]) == Text.IntToDecimal(a) + Text.IntToDecimal(b)
  {
    var p := [Text.IntToDecimal(a), Text.IntToDecimal(b)];
    assert seq(2, k requires 0 <= k < 2 => Text.IntToDecimal([a, b][k])) == p;
    assert Text.Concat(p[1..]) == Text.IntToDecimal(b) + Text.Concat([]);
  }

  /** Packages 2, 4 and 3, 8 render as "24/38". */
  lemma Display24Slash38()
    ensures RenderAll([[2, 4], [3, 8]]) == "24/38"
  {
    SmallDecimals();
    DisplayPair(2, 4);
    DisplayPair(3, 8);
    assert RenderSizes([2, 4]) == "24";
    assert RenderSizes([3, 8]) == "38";
    var texts := ["24", "38"];
    assert seq(2, k requires 0 <= k < 2 => RenderSizes([[2, 4], [3, 8]][k])) == texts;
    assert Text.Join(texts[1..], "/") == "38";
  }

  /**
   * No array, an empty array, an empty string and two arguments are illegal arguments; a
   * character that is not a digit is a number-format error.
   */
  method InvalidInputsAreRejected()
    returns (nullInput: Result<seq<Package>, Error>, emptyInput: Result<seq<Package>, Error>,
             emptyString: Result<seq<Package>, Error>, tooMany: Result<seq<Package>, Error>,
             letter: Result<seq<Package>, Error>, symbols: Result<seq<Package>, Error>)
    ensures nullInput == Failure(IllegalArgument(NoArguments))
    ensures emptyInput == Failure(IllegalArgument(NoArguments))
    ensures emptyString == Failure(IllegalArgument(EmptyInput))
    ensures tooMany == Failure(IllegalArgument(TooManyArguments))
    ensures letter == Failure(NumberFormat)
    ensures symbols == Failure(NumberFormat)
  {
    nullInput := PackageAll(None);
    emptyInput := PackageAll(Some([]));
    emptyString := PackageAll(Some([Some("")]));
    tooMany := PackageAll(Some([Some("test"), Some("test")]));
    assert !Text.IsDigit("z12234"[0]);
    letter := PackageAll(Some([Some("z12234")]));
    assert !Text.IsDigit("122)à=)à34"[3]);
    symbols := PackageAll(Some([Some("122)à=)à34")]));
  }

  /** Five items of size 9 go into five packages, displayed as "9/9/9/9/9". */
  method NinesEachInTheirOwnPackage() returns (s: string, count: int)
    ensures s == "9/9/9/9/9" && count == 5
  {
    var r := PackageAll(Some([Some("99999")]));
    NinesSpec();
    var packages := r.value;
    s := Package.DisplayAll(packages);
    count := |packages|;
  }

  /** The packer on "99999", on values. */
  lemma NinesSpec()
    ensures PackSpec(Some([Some("99999")])) == Success([[9], [9], [9], [9], [9]])
    ensures RenderAll([[9], [9], [9], [9], [9]]) == "9/9/9/9/9"
  {
    NinesSorted();
    NinesPacked();
    assert ValidateRaw(Some([Some("99999")])) == Success("99999");
    NinesRendered();
  }

  lemma NinesPacked()
    ensures Bounded([9, 9, 9, 9, 9])
    ensures PackSizes([9, 9, 9, 9, 9]) == [[9], [9], [9], [9], [9]]
  {
    var nines := seq(5, _ => 9);
    NinesPlaceAll(nines, 0);
    assert PlacedUpTo(5, 0) == NonePlaced(5);
    assert seq(5, _ => [9]) == [[9], [9], [9], [9], [9]];
    assert nines == [9, 9, 9, 9, 9];
  }

  lemma NinesSorted()
    ensures OrderedDescSizes("99999") == Success([9, 9, 9, 9, 9])
  {
    assert ParseDigits("99999").value == [9, 9, 9, 9, 9];
    OrderedUniform("99999", 9);
  }

  /** When every digit of the argument is `x`, sorting leaves the digits as they are. */
  lemma OrderedUniform(arg: string, x: int)
    requires ParseDigits(arg).Success?
    requires forall k :: 0 <= k < |ParseDigits(arg).value| ==> ParseDigits(arg).value[k] == x
    ensures OrderedDescSizes(arg) == ParseDigits(arg)
  {
    SameElements(ParseDigits(arg).value, OrderedDescSizes(arg).value, x);
  }

  /** A permutation of a list whose elements all equal `x` is that list. */
  lemma SameElements(s: seq<int>, r: seq<int>, x: int)
    requires multiset(r) == multiset(s)
    requires forall k :: 0 <= k < |s| ==> s[k] == x
    ensures r == s
  {
    assert |r| == |multiset(r)| == |multiset(s)| == |s|;
    forall k | 0 <= k < |r|
      ensures r[k] == x
    {
      assert r[k] in multiset(s);
    }
  }

  lemma NinesRendered()
    ensures RenderAll([[9], [9], [9], [9], [9]]) == "9/9/9/9/9"
  {
    assert Text.IntToDecimal(9) == "9" by {
      assert Text.DigitChar(9) == '9';
    }
    assert RenderSizes([9]) == "9" by {
      assert seq(1, k requires 0 <= k < 1 => Text.IntToDecimal([9][k])) == ["9"];
      assert Text.Concat(["9"]) == "9" + Text.Concat([]);
    }
    var parts := ["9", "9", "9", "9", "9"];
    assert seq(5, k requires 0 <= k < 5 => RenderSizes([[9], [9], [9], [9], [9]][k])) == parts;
    assert Text.Join(parts[4..], "/") == "9";
    assert Text.Join(parts[3..], "/") == "9/9";
    assert Text.Join(parts[2..], "/") == "9/9/9";
    assert Text.Join(parts[1..], "/") == "9/9/9/9";
  }

  /** The marks of `n` items of which the first `k` are placed. */
  function PlacedUpTo(n: nat, k: nat): (p: seq<bool>)
    ensures |p| == n && forall i :: 0 <= i < n ==> p[i] == (i < k)
  {
    seq(n, i => i < k)
  }

  /** With every item of size 9, an empty package takes the first unplaced item. */
  lemma NinesOpen(sizes: seq<int>, k: nat)
    requires forall i :: 0 <= i < |sizes| ==> sizes[i] == 9
    requires k < |sizes|
    ensures NextFound(sizes, PlacedUpTo(|sizes|, k), []) == Some(k)
    ensures NextPlaced(sizes, PlacedUpTo(|sizes|, k), []) == PlacedUpTo(|sizes|, k + 1)
    ensures NextCur(sizes, PlacedUpTo(|sizes|, k), []) == [9]
  {
    assert Sum([]) == 0;
    assert !PlacedUpTo(|sizes|, k)[k];
  }

  /** With every item of size 9, a package holding 9 takes nothing more. */
  lemma NinesFull(sizes: seq<int>, k: nat)
    requires forall i :: 0 <= i < |sizes| ==> sizes[i] == 9
    requires k <= |sizes|
    ensures NextFound(sizes, PlacedUpTo(|sizes|, k), [9]).None?
    ensures NextPlaced(sizes, PlacedUpTo(|sizes|, k), [9]) == PlacedUpTo(|sizes|, k)
    ensures NextCur(sizes, PlacedUpTo(|sizes|, k), [9]) == [9]
  {
    assert Sum([9]) == 9 by { assert [9][..0] == []; }
  }

  /** With every item of size 9, the next unplaced item is closed alone in a package. */
  lemma NinesStep(sizes: seq<int>, k: nat)
    requires forall i :: 0 <= i < |sizes| ==> sizes[i] == 9
    requires k < |sizes|
    ensures Bounded(sizes)
    ensures PlaceAll(sizes, PlacedUpTo(|sizes|, k), []) == [[9]] + PlaceAll(sizes, PlacedUpTo(|sizes|, k + 1), [])
  {
    var placed := PlacedUpTo(|sizes|, k);
    var p1 := PlacedUpTo(|sizes|, k + 1);
    assert !placed[k];
    NinesOpen(sizes, k);
    assert Sum([9]) == 9 by { assert [9][..0] == []; }
    PlaceAllStep(sizes, placed, []);
    if k + 1 < |sizes| {
      assert !p1[k + 1];
      assert PlaceAll(sizes, placed, []) == PlaceAll(sizes, p1, [9]);
      NinesFull(sizes, k + 1);
      PlaceAllStep(sizes, p1, [9]);
    } else {
      assert AllPlaced(p1);
    }
  }

  /**
   * With every item of size 9 and the first `k` placed, each remaining item goes into a
   * package of its own.
   */
  lemma {:induction false} NinesPlaceAll(sizes: seq<int>, k: nat)
    requires forall i :: 0 <= i < |sizes| ==> sizes[i] == 9
    requires k <= |sizes|
    ensures Bounded(sizes)
    ensures PlaceAll(sizes, PlacedUpTo(|sizes|, k), []) == seq(|sizes| - k, _ => [9])
    decreases |sizes| - k
  {
    if k == |sizes| {
      assert AllPlaced(PlacedUpTo(|sizes|, k));
    } else {
      NinesStep(sizes, k);
      NinesPlaceAll(sizes, k + 1);
      assert seq(|sizes| - k, _ => [9]) == [[9]] + seq(|sizes| - (k + 1), _ => [9]);
    }
  }
}
