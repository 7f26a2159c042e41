/**
 * The packer: validation of the argument array, conversion of the digit string into
 * items sorted by decreasing size, and the first-fit placement loop.
 *
 * The placement is specified on values by `PlaceAll`, which follows the loop of
 * `PackageAll` step by step; `PackageAll` runs that loop on `Item` and `Package`
 * objects and is proved to produce exactly the packages `PlaceAll` describes.
 */
module Packager {
  import opened Constants
  import opened Wrappers
  import opened Text
  import opened Items
  import opened Packages

  /** Which check of the argument array failed. */
  datatype ArgumentProblem = NoArguments | TooManyArguments | EmptyInput

  /** The two exceptions the packer throws. */
  datatype Error =
    | IllegalArgument(problem: ArgumentProblem)  // IllegalArgumentException
    | NumberFormat                               // NumberFormatException

  /** The program arguments: `None` is a null array, an element `None` a null string. */
  type Args = Option<seq<Option<string>>>

  // ---------------------------------------------------------------------------
  // Validation and conversion
  // ---------------------------------------------------------------------------

  /**
   * Accepts exactly one non-null, non-empty argument and returns it; the checks are
   * made in the order: no array or no argument, more than one argument, empty argument.
   */
  function ValidateRaw(args: Args): (r: Result<string, Error>)
    ensures r.Success? <==>
              args.Some? && |args.value| == 1 && args.value[0].Some? && args.value[0].value != []
    ensures r.Success? ==> r.value == args.value[0].value
    ensures (args.None? || args.value == []) ==> r == Failure(IllegalArgument(NoArguments))
    ensures args.Some? && |args.value| > 1 ==> r == Failure(IllegalArgument(TooManyArguments))
    ensures args.Some? && |args.value| == 1 && (args.value[0].None? || args.value[0].value == []) ==>
              r == Failure(IllegalArgument(EmptyInput))
  {
    if args.None? || |args.value| == 0 then Failure(IllegalArgument(NoArguments))
    else if |args.value| > 1 then Failure(IllegalArgument(TooManyArguments))
    else if args.value[0].None? || |args.value[0].value| == 0 then Failure(IllegalArgument(EmptyInput))
    else Success(args.value[0].value)
  }

  /** The value of every character, or `NumberFormat` if one of them is not a digit. */
  function ParseDigits(s: string): (r: Result<seq<int>, Error>)
    ensures r.Success? <==> AllDigits(s)
    ensures r.Failure? ==> r.error == NumberFormat
    ensures r.Success? ==> |r.value| == |s| &&
                           forall k :: 0 <= k < |s| ==> r.value[k] == DigitValue(s[k])
  {
    if s == [] then Success([])
    else if !IsDigit(s[0]) then Failure(NumberFormat)
    else
      match ParseDigits(s[1..])
      case Failure(e) => Failure(e)
      case Success(rest) => Success([DigitValue(s[0])] + rest)
  }

  /** Every element is at least as large as every later one. */
  predicate Descending(s: seq<int>) {
    forall i, j :: 0 <= i < j < |s| ==> s[i] >= s[j]
  }

  /** Inserts `x` into a descending list, before the first element smaller than it. */
  function Insert(x: int, s: seq<int>): (r: seq<int>)
    requires Descending(s)
    ensures Descending(r)
    ensures multiset(r) == multiset(s) + multiset{x}
  {
    if s == [] then [x]
    else if x >= s[0] then
      DescendingBefore(x, s);
      [x] + s
    else
      var rest := Insert(x, s[1..]);
      InsertAfterHead(x, s, rest);
      [s[0]] + rest
  }

  /** Keeping the head of `s` in front of `x` inserted into its tail gives a descending list. */
  lemma InsertAfterHead(x: int, s: seq<int>, rest: seq<int>)
    requires Descending(s) && s != [] && x < s[0]
    requires Descending(rest) && multiset(rest) == multiset(s[1..]) + multiset{x}
    ensures Descending([s[0]] + rest)
    ensures multiset([s[0]] + rest) == multiset(s) + multiset{x}
  {
    assert s == [s[0]] + s[1..];
    forall y | y in multiset(s[1..]) + multiset{x}
      ensures y <= s[0]
    {
      if y != x {
        var i :| 0 <= i < |s[1..]| && s[1..][i] == y;
        assert s[i + 1] == y;
      }
    }
    DescendingCons(s[0], rest, multiset(s[1..]) + multiset{x});
  }

  /** A descending list stays descending when an element at least as large as its head comes first. */
  lemma DescendingBefore(x: int, s: seq<int>)
    requires Descending(s) && s != [] && x >= s[0]
    ensures Descending([x] + s)
  {
  }

  /** A descending list stays descending when an element at least as large as all of it comes first. */
  lemma DescendingCons(h: int, t: seq<int>, bag: multiset<int>)
    requires Descending(t) && multiset(t) == bag
    requires forall y :: y in bag ==> y <= h
    ensures Descending([h] + t)
  {
    forall k | 0 <= k < |t|
      ensures t[k] <= h
    {
      assert t[k] in bag;
    }
  }

  /** The list sorted by decreasing value. */
  function SortDescending(s: seq<int>): (r: seq<int>)
    ensures Descending(r)
    ensures multiset(r) == multiset(s)
  {
    if s == [] then []
    else
      assert s == [s[0]] + s[1..];
      Insert(s[0], SortDescending(s[1..]))
  }

  /**
   * The item sizes read from the argument, sorted by decreasing size, or `NumberFormat`
   * if a character is not a digit.
   */
  function OrderedDescSizes(arg: string): (r: Result<seq<int>, Error>)
    ensures r.Success? <==> AllDigits(arg)
    ensures r.Failure? ==> r.error == NumberFormat
    ensures r.Success? ==> Descending(r.value)
    ensures r.Success? ==> multiset(r.value) == multiset(ParseDigits(arg).value)
    ensures r.Success? ==> forall k :: 0 <= k < |r.value| ==> 0 <= r.value[k] <= 9
  {
    match ParseDigits(arg)
    case Failure(e) => Failure(e)
    case Success(digits) =>
      var sorted := SortDescending(digits);
      PermutedDigits(digits, sorted);
      Success(sorted)
  }

  /** A permutation of a list of digit values holds digit values only. */
  lemma PermutedDigits(digits: seq<int>, sorted: seq<int>)
    requires forall k :: 0 <= k < |digits| ==> 0 <= digits[k] <= 9
    requires multiset(sorted) == multiset(digits)
    ensures forall k :: 0 <= k < |sorted| ==> 0 <= sorted[k] <= 9
  {
    forall k | 0 <= k < |sorted|
      ensures 0 <= sorted[k] <= 9
    {
      assert sorted[k] in multiset(digits);
    }
  }

  // ---------------------------------------------------------------------------
  // Specification of the placement loop, on values
  // ---------------------------------------------------------------------------

  /** No item is larger than a package: the bound the placement loop needs to terminate. */
  predicate Bounded(sizes: seq<int>) {
    forall k :: 0 <= k < |sizes| ==> sizes[k] <= MAX_SIZE
  }

  /** An item of size `size` fits a package holding `total` of `capacity`. */
  predicate Fits(total: int, size: int, capacity: int) {
    capacity >= total + size
  }

  predicate AllPlaced(placed: seq<bool>) {
    forall k :: 0 <= k < |placed| ==> placed[k]
  }

  /** The multiset of the sizes of the items not yet placed. */
  function UnplacedBag(sizes: seq<int>, placed: seq<bool>): multiset<int>
    requires |placed| == |sizes|
  {
    if sizes == [] then multiset{}
    else
      var n := |sizes| - 1;
      UnplacedBag(sizes[..n], placed[..n]) + (if placed[n] then multiset{} else multiset{sizes[n]})
  }

  /** A size is unplaced exactly when some unplaced item has it. */
  lemma {:induction false} InUnplacedBag(sizes: seq<int>, placed: seq<bool>, x: int)
    requires |placed| == |sizes|
    ensures x in UnplacedBag(sizes, placed) <==>
              exists k :: 0 <= k < |sizes| && !placed[k] && sizes[k] == x
  {
    if sizes != [] {
      var n := |sizes| - 1;
      var earlier := UnplacedBag(sizes[..n], placed[..n]);
      var last: multiset<int> := if placed[n] then multiset{} else multiset{sizes[n]};
      assert UnplacedBag(sizes, placed) == earlier + last;
      InUnplacedBag(sizes[..n], placed[..n], x);
      if x in earlier {
        var k :| 0 <= k < n && !placed[..n][k] && sizes[..n][k] == x;
        assert !placed[k] && sizes[k] == x;
      } else if x in last {
        assert !placed[n] && sizes[n] == x;
      }
      if k :| 0 <= k < |sizes| && !placed[k] && sizes[k] == x {
        if k < n {
          assert !placed[..n][k] && sizes[..n][k] == x;
          assert x in earlier;
        } else {
          assert x in last;
        }
      }
    }
  }

  /** Placing one unplaced item removes exactly its size from the unplaced multiset. */
  lemma {:induction false} PlaceOne(sizes: seq<int>, placed: seq<bool>, f: nat)
    requires |placed| == |sizes| && f < |sizes| && !placed[f]
    ensures UnplacedBag(sizes, placed[f := true]) + multiset{sizes[f]} == UnplacedBag(sizes, placed)
    decreases |sizes|
  {
    var n := |sizes| - 1;
    if f == n {
      PlaceLast(sizes, placed);
    } else {
      PlaceOne(sizes[..n], placed[..n], f);
      PlaceEarlier(sizes, placed, f);
    }
  }

  /** `PlaceOne` for the last item. */
  lemma PlaceLast(sizes: seq<int>, placed: seq<bool>)
    requires |placed| == |sizes| && sizes != [] && !placed[|sizes| - 1]
    ensures var n := |sizes| - 1;
            UnplacedBag(sizes, placed[n := true]) + multiset{sizes[n]} == UnplacedBag(sizes, placed)
  {
    var n := |sizes| - 1;
    var after := placed[n := true];
    UnplacedBagLast(sizes, placed);
    UnplacedBagLast(sizes, after);
    assert after[..n] == placed[..n];
  }

  /** `PlaceOne` for an item before the last, given `PlaceOne` for the items before the last. */
  lemma PlaceEarlier(sizes: seq<int>, placed: seq<bool>, f: nat)
    requires |placed| == |sizes| && f < |sizes| - 1 && !placed[f]
    requires var n := |sizes| - 1;
             UnplacedBag(sizes[..n], placed[..n][f := true]) + multiset{sizes[f]} ==
             UnplacedBag(sizes[..n], placed[..n])
    ensures UnplacedBag(sizes, placed[f := true]) + multiset{sizes[f]} == UnplacedBag(sizes, placed)
  {
    var n := |sizes| - 1;
    var after := placed[f := true];
    UnplacedBagLast(sizes, placed);
    UnplacedBagLast(sizes, after);
    assert after[..n] == placed[..n][f := true];
    assert after[n] == placed[n];
  }

  /** `UnplacedBag` unfolded once: the earlier items' bag plus the last item's size if unplaced. */
  lemma UnplacedBagLast(sizes: seq<int>, placed: seq<bool>)
    requires |placed| == |sizes| && sizes != []
    ensures UnplacedBag(sizes, placed) ==
              UnplacedBag(sizes[..|sizes| - 1], placed[..|sizes| - 1]) +
              (if placed[|sizes| - 1] then multiset{} else multiset{sizes[|sizes| - 1]})
  {
  }

  /** All items are placed exactly when no size is left unplaced. */
  lemma {:induction false} AllPlacedIffEmpty(sizes: seq<int>, placed: seq<bool>)
    requires |placed| == |sizes|
    ensures AllPlaced(placed) <==> UnplacedBag(sizes, placed) == multiset{}
  {
    if sizes != [] {
      var n := |sizes| - 1;
      AllPlacedIffEmpty(sizes[..n], placed[..n]);
      assert AllPlaced(placed) <==> AllPlaced(placed[..n]) && placed[n];
    }
  }

  /** The first unplaced item at index `i` or later that fits, if any. */
  function FirstFitFrom(sizes: seq<int>, placed: seq<bool>, total: int, capacity: int, i: nat): (r: Option<nat>)
    requires |placed| == |sizes| && i <= |sizes|
    ensures r.Some? ==> i <= r.value < |sizes| && !placed[r.value] && Fits(total, sizes[r.value], capacity)
    ensures r.Some? ==> forall k :: i <= k < r.value ==> placed[k] || !Fits(total, sizes[k], capacity)
    ensures r.None? ==> forall k :: i <= k < |sizes| ==> placed[k] || !Fits(total, sizes[k], capacity)
    decreases |sizes| - i
  {
    if i == |sizes| then None
    else if !placed[i] && Fits(total, sizes[i], capacity) then Some(i)
    else FirstFitFrom(sizes, placed, total, capacity, i + 1)
  }

  /** The first unplaced item, in list order, that fits a package holding `total` of `capacity`. */
  function FirstFitIndex(sizes: seq<int>, placed: seq<bool>, total: int, capacity: int): Option<nat>
    requires |placed| == |sizes|
  {
    FirstFitFrom(sizes, placed, total, capacity, 0)
  }

  /** The item added in the next step: the first unplaced one that fits the current package. */
  function NextFound(sizes: seq<int>, placed: seq<bool>, cur: seq<int>): Option<nat>
    requires |placed| == |sizes|
  {
    FirstFitIndex(sizes, placed, Sum(cur), MAX_SIZE)
  }

  /** The placed marks after the next step. */
  function NextPlaced(sizes: seq<int>, placed: seq<bool>, cur: seq<int>): (p: seq<bool>)
    requires |placed| == |sizes|
    ensures |p| == |sizes|
  {
    var found := NextFound(sizes, placed, cur);
    if found.Some? then placed[found.value := true] else placed
  }

  /** The current package after the next step. */
  function NextCur(sizes: seq<int>, placed: seq<bool>, cur: seq<int>): seq<int>
    requires |placed| == |sizes|
  {
    var found := NextFound(sizes, placed, cur);
    if found.Some? then cur + [sizes[found.value]] else cur
  }

  /**
   * Whether the next step closes the current package: it is full, nothing fitted it, or
   * every item is placed.
   */
  predicate Closes(sizes: seq<int>, placed: seq<bool>, cur: seq<int>)
    requires |placed| == |sizes|
  {
    MAX_SIZE <= Sum(NextCur(sizes, placed, cur)) || NextFound(sizes, placed, cur).None? ||
    AllPlaced(NextPlaced(sizes, placed, cur))
  }

  /**
   * The packages still to be closed when the items marked in `placed` are placed and the
   * current package holds `cur`. One step: add the first unplaced item that fits the current
   * package, if any; then close the current package if it is full, if nothing fitted or if
   * every item is placed, and start an empty one.
   */
  function PlaceAll(sizes: seq<int>, placed: seq<bool>, cur: seq<int>): (r: seq<seq<int>>)
    requires |placed| == |sizes| && Bounded(sizes)
    ensures r == [] <==> AllPlaced(placed)
    decreases |UnplacedBag(sizes, placed)|, if cur == [] then 0 else 1
  {
    if AllPlaced(placed) then []
    else
      StepProgress(sizes, placed, cur);
      if Closes(sizes, placed, cur) then
        [NextCur(sizes, placed, cur)] + PlaceAll(sizes, NextPlaced(sizes, placed, cur), [])
      else
        PlaceAll(sizes, NextPlaced(sizes, placed, cur), NextCur(sizes, placed, cur))
  }

  /** A step either places an item, or finds nothing for a current package that is not empty. */
  lemma StepProgress(sizes: seq<int>, placed: seq<bool>, cur: seq<int>)
    requires |placed| == |sizes| && Bounded(sizes) && !AllPlaced(placed)
    ensures NextFound(sizes, placed, cur).None? ==> cur != [] && NextPlaced(sizes, placed, cur) == placed
    ensures NextFound(sizes, placed, cur).Some? ==>
              |UnplacedBag(sizes, NextPlaced(sizes, placed, cur))| < |UnplacedBag(sizes, placed)|
  {
    var found := NextFound(sizes, placed, cur);
    if found.Some? {
      PlaceOne(sizes, placed, found.value);
    }
  }

  /** One step of `PlaceAll`, for proofs that follow it. */
  lemma PlaceAllStep(sizes: seq<int>, placed: seq<bool>, cur: seq<int>)
    requires |placed| == |sizes| && Bounded(sizes) && !AllPlaced(placed)
    ensures PlaceAll(sizes, placed, cur) ==
              if Closes(sizes, placed, cur) then
                [NextCur(sizes, placed, cur)] + PlaceAll(sizes, NextPlaced(sizes, placed, cur), [])
              else
                PlaceAll(sizes, NextPlaced(sizes, placed, cur), NextCur(sizes, placed, cur))
  {
  }

  function NonePlaced(n: nat): (p: seq<bool>)
    ensures |p| == n && forall k :: 0 <= k < n ==> !p[k]
  {
    seq(n, _ => false)
  }

  /** First-fit-decreasing on sizes already sorted by decreasing size. */
  function PackSizes(sizes: seq<int>): (r: seq<seq<int>>)
    requires Bounded(sizes)
    ensures r == [] <==> sizes == []
  {
    var placed := NonePlaced(|sizes|);
    assert sizes != [] ==> !placed[0];
    PlaceAll(sizes, placed, [])
  }

  /** The whole packer on values: validate, convert, place. */
  function PackSpec(args: Args): (r: Result<seq<seq<int>>, Error>)
    ensures r.Success? ==> r.value != []
  {
    match ValidateRaw(args)
    case Failure(e) => Failure(e)
    case Success(arg) =>
      match OrderedDescSizes(arg)
      case Failure(e) => Failure(e)
      case Success(sizes) => Success(PackSizes(sizes))
  }

  // ---------------------------------------------------------------------------
  // The placement loop on objects
  // ---------------------------------------------------------------------------

  /** The `added` flags of a list of items, in order. */
  function Flags(items: seq<Item>): (f: seq<bool>)
    reads items
    ensures |f| == |items| && forall k :: 0 <= k < |items| ==> f[k] == items[k].added
  {
    if items == [] then [] else Flags(items[..|items| - 1]) + [items[|items| - 1].added]
  }

  /** Whether some item is not yet added (`anyMatch` on the negated flag). */
  predicate AnyUnadded(items: seq<Item>)
    reads items
  {
    exists k :: 0 <= k < |items| && !items[k].added
  }

  /** Whether every item is added (`allMatch` on the flag). */
  predicate AllAdded(items: seq<Item>)
    reads items
  {
    forall k :: 0 <= k < |items| ==> items[k].added
  }

  /** The two queries on the flags agree with the flags the specification works on. */
  lemma FlagsAllPlaced(items: seq<Item>)
    ensures AnyUnadded(items) <==> !AllPlaced(Flags(items))
    ensures AllAdded(items) <==> AllPlaced(Flags(items))
  {
    var f := Flags(items);
    if AnyUnadded(items) {
      var k :| 0 <= k < |items| && !items[k].added;
      assert !f[k];
    }
    if !AllPlaced(f) {
      var k :| 0 <= k < |f| && !f[k];
      assert !items[k].added;
    }
  }

  predicate Distinct(items: seq<Item>) {
    forall i, j :: 0 <= i < j < |items| ==> items[i] != items[j]
  }

  /** The items held by a list of packages, package after package, each in insertion order. */
  function AllItems(packages: seq<Package>): seq<Item>
    reads packages
  {
    if packages == [] then [] else AllItems(packages[..|packages| - 1]) + packages[|packages| - 1].items
  }

  lemma AllItemsAppend(packages: seq<Package>, p: Package)
    ensures AllItems(packages + [p]) == AllItems(packages) + p.items
  {
    assert (packages + [p])[..|packages|] == packages;
  }

  /** An item held by a package of the list is among the items of the list. */
  lemma {:induction false} InAllItems(packages: seq<Package>, i: nat, x: Item)
    requires i < |packages| && x in packages[i].items
    ensures x in AllItems(packages)
    decreases |packages|
  {
    var n := |packages| - 1;
    if i < n {
      assert packages[..n][i] == packages[i];
      InAllItems(packages[..n], i, x);
    }
  }

  /**
   * When no item appears twice among the items of the packages, an item is held by at most
   * one package.
   */
  lemma {:induction false} InOnePackage(packages: seq<Package>, i: nat, j: nat, x: Item)
    requires Distinct(AllItems(packages)) && i < j < |packages| && x in packages[i].items
    ensures x !in packages[j].items
    decreases |packages|
  {
    var n := |packages| - 1;
    var init := packages[..n];
    var a, b := AllItems(init), packages[n].items;
    assert AllItems(packages) == a + b;
    assert init[i] == packages[i];
    DistinctAppend(a, b);
    if j == n {
      InAllItems(init, i, x);
    } else {
      assert init[j] == packages[j];
      InOnePackage(init, i, j, x);
    }
  }

  /** No item appears twice in `a + b` only if none appears twice in `a` and none is in both. */
  lemma DistinctAppend(a: seq<Item>, b: seq<Item>)
    requires Distinct(a + b)
    ensures Distinct(a)
    ensures forall x :: x in a ==> x !in b
  {
    forall i, j | 0 <= i < |a| && 0 <= j < |b|
      ensures a[i] != b[j]
    {
      assert (a + b)[i] == a[i] && (a + b)[|a| + j] == b[j];
    }
    forall i, j | 0 <= i < j < |a|
      ensures a[i] != a[j]
    {
      assert (a + b)[i] == a[i] && (a + b)[j] == a[j];
    }
  }

  lemma AppendAssociative(a: seq<Item>, b: seq<Item>, c: seq<Item>)
    ensures a + (b + c) == (a + b) + c
  {
  }

  lemma AppendEmpty(a: seq<Item>, b: seq<Item>)
    requires b == []
    ensures a + b == a
  {
  }

  /**
   * The items `held` by the packages are distinct items of `itemList`, and an item of
   * `itemList` is held exactly when its flag in `flags` is set.
   */
  predicate Accounted(itemList: seq<Item>, flags: seq<bool>, held: seq<Item>)
    requires |flags| == |itemList|
  {
    Distinct(held) &&
    (forall x :: x in held ==> x in itemList) &&
    forall k :: 0 <= k < |itemList| ==> (flags[k] <==> itemList[k] in held)
  }

  /** Adding an item that is not yet flagged, and flagging it, keeps every item accounted for. */
  lemma AccountedAdd(itemList: seq<Item>, flags: seq<bool>, held: seq<Item>, f: nat)
    requires |flags| == |itemList| && Distinct(itemList) && f < |itemList| && !flags[f]
    requires Accounted(itemList, flags, held)
    ensures Accounted(itemList, flags[f := true], held + [itemList[f]])
  {
    var held' := held + [itemList[f]];
    forall i, j | 0 <= i < j < |held'|
      ensures held'[i] != held'[j]
    {
      if j == |held| {
        assert held'[i] == held[i];
      }
    }
    forall k | 0 <= k < |itemList|
      ensures flags[f := true][k] <==> itemList[k] in held'
    {
      if k != f {
        assert itemList[k] != itemList[f];
      }
    }
  }

  /** Once every item is flagged, the held items are exactly the items of `itemList`, each once. */
  lemma AccountedAll(itemList: seq<Item>, flags: seq<bool>, held: seq<Item>)
    requires |flags| == |itemList| && Accounted(itemList, flags, held) && AllPlaced(flags)
    ensures Distinct(held)
    ensures forall x :: x in held <==> x in itemList
  {
    forall x | x in itemList
      ensures x in held
    {
      var k :| 0 <= k < |itemList| && itemList[k] == x;
      assert flags[k];
    }
  }

  /** The index of the first item, in list order, that is not added and that `pkg` accepts. */
  method FindFirstAccepted(itemList: seq<Item>, pkg: Package) returns (found: Option<nat>)
    ensures found == FirstFitIndex(Sizes(itemList), Flags(itemList), pkg.ItemsTotalSize(), pkg.maxSize)
  {
    var i := 0;
    while i < |itemList|
      invariant 0 <= i <= |itemList|
      invariant FirstFitIndex(Sizes(itemList), Flags(itemList), pkg.ItemsTotalSize(), pkg.maxSize) ==
                FirstFitFrom(Sizes(itemList), Flags(itemList), pkg.ItemsTotalSize(), pkg.maxSize, i)
    {
      if !itemList[i].added && pkg.Accept(itemList[i]) {
        return Some(i);
      }
      i := i + 1;
    }
    return None;
  }

  /** After the item at `f` is added, the flags are the old ones with `f` set. */
  lemma AddedFlags(itemList: seq<Item>, was: seq<bool>, f: nat)
    requires Distinct(itemList) && f < |itemList| && |was| == |itemList|
    requires itemList[f].added
    requires forall k :: 0 <= k < |itemList| && k != f ==> itemList[k].added == was[k]
    ensures Flags(itemList) == was[f := true]
  {
  }

  /**
   * One turn of the placement loop keeps `done + PlaceAll(...)`, the packages closed so far
   * followed by those still to be closed, equal to the whole result.
   */
  lemma LoopStep(sizes: seq<int>, placed: seq<bool>, cur: seq<int>, done: seq<seq<int>>)
    requires |placed| == |sizes| && Bounded(sizes) && !AllPlaced(placed)
    requires done + PlaceAll(sizes, placed, cur) == PackSizes(sizes)
    ensures Closes(sizes, placed, cur) ==>
              (done + [NextCur(sizes, placed, cur)]) + PlaceAll(sizes, NextPlaced(sizes, placed, cur), []) ==
              PackSizes(sizes)
    ensures !Closes(sizes, placed, cur) ==>
              done + PlaceAll(sizes, NextPlaced(sizes, placed, cur), NextCur(sizes, placed, cur)) ==
              PackSizes(sizes)
  {
    PlaceAllStep(sizes, placed, cur);
    if Closes(sizes, placed, cur) {
      var cur' := NextCur(sizes, placed, cur);
      var later := PlaceAll(sizes, NextPlaced(sizes, placed, cur), []);
      assert (done + [cur']) + later == done + ([cur'] + later);
    }
  }

  /**
   * The first half of one turn of the placement loop: add to `currentPackage` the first
   * item, in list order, that is not added and that the package accepts, if there is one.
   * The packages already closed, `packageList`, are left as they are.
   */
  method AddFirstAccepted(itemList: seq<Item>, currentPackage: Package, ghost packageList: seq<Package>,
                          ghost held: seq<Item>)
    returns (itemToAdd: Option<nat>, ghost held': seq<Item>)
    requires Distinct(itemList) && currentPackage !in packageList
    modifies currentPackage, itemList
    ensures itemToAdd == FirstFitIndex(Sizes(itemList), old(Flags(itemList)),
                                       old(currentPackage.ItemsTotalSize()), old(currentPackage.maxSize))
    ensures currentPackage.maxSize == old(currentPackage.maxSize)
    ensures Flags(itemList) ==
              if itemToAdd.Some? then old(Flags(itemList))[itemToAdd.value := true] else old(Flags(itemList))
    ensures itemToAdd.Some? ==> itemToAdd.value < |itemList|
    ensures currentPackage.items ==
              if itemToAdd.Some? then old(currentPackage.items) + [itemList[itemToAdd.value]]
              else old(currentPackage.items)
    ensures Sizes(currentPackage.items) ==
              if itemToAdd.Some? then old(Sizes(currentPackage.items)) + [Sizes(itemList)[itemToAdd.value]]
              else old(Sizes(currentPackage.items))
    ensures PackageSizes(packageList) == old(PackageSizes(packageList))
    ensures AllCapacity(packageList, MAX_SIZE) == old(AllCapacity(packageList, MAX_SIZE))
    ensures AllItems(packageList) == old(AllItems(packageList))
    ensures held == old(AllItems(packageList) + currentPackage.items) ==>
              held' == AllItems(packageList) + currentPackage.items
    ensures Accounted(itemList, old(Flags(itemList)), held) ==> Accounted(itemList, Flags(itemList), held')
  {
    held' := held;
    itemToAdd := FindFirstAccepted(itemList, currentPackage);
    if itemToAdd.Some? {
      var f := itemToAdd.value;
      ghost var was := Flags(itemList);
      currentPackage.AddItem(itemList[f]);
      AddedFlags(itemList, was, f);
      assert Sizes(currentPackage.items) == old(Sizes(currentPackage.items)) + [Sizes(itemList)[f]];
    }
    assert forall k :: 0 <= k < |packageList| ==>
             packageList[k].items == old(packageList[k].items) &&
             packageList[k].maxSize == old(packageList[k].maxSize);
    ClosedUnchanged(packageList);
    if itemToAdd.Some? {
      var f := itemToAdd.value;
      AppendAssociative(AllItems(packageList), old(currentPackage.items), [itemList[f]]);
      if Accounted(itemList, old(Flags(itemList)), held) {
        AccountedAdd(itemList, old(Flags(itemList)), held, f);
      }
      held' := held + [itemList[f]];
    }
  }

  /** Packages whose items and capacity are unchanged have unchanged sizes, capacities and items. */
  twostate lemma ClosedUnchanged(packageList: seq<Package>)
    requires forall k :: 0 <= k < |packageList| ==>
               packageList[k].items == old(packageList[k].items) &&
               packageList[k].maxSize == old(packageList[k].maxSize)
    ensures PackageSizes(packageList) == old(PackageSizes(packageList))
    ensures AllCapacity(packageList, MAX_SIZE) == old(AllCapacity(packageList, MAX_SIZE))
    ensures AllItems(packageList) == old(AllItems(packageList))
  {
    if packageList != [] {
      var n := |packageList| - 1;
      ClosedUnchanged(packageList[..n]);
    }
  }

  /**
   * The second half of one turn of the placement loop: if `currentPackage` is full, if no
   * item was added to it (`!added`) or if every item is now added, append it to `packageList`
   * and continue with a new, empty package. `unadded` is the loop's condition for the next
   * turn: whether some item is still not added.
   */
  method CloseIfDone(itemList: seq<Item>, currentPackage: Package, packageList: seq<Package>, added: bool)
    returns (close: bool, packageList': seq<Package>, nextPackage: Package, unadded: bool)
    requires currentPackage !in packageList
    ensures close == (currentPackage.maxSize <= Sum(Sizes(currentPackage.items)) || !added ||
                      AllPlaced(Flags(itemList)))
    ensures unadded == !AllPlaced(Flags(itemList))
    ensures Flags(itemList) == old(Flags(itemList))
    ensures close ==> packageList' == packageList + [currentPackage]
    ensures close ==> fresh(nextPackage) && nextPackage.items == [] && nextPackage.maxSize == MAX_SIZE
    ensures !close ==> packageList' == packageList && nextPackage == currentPackage
    ensures Sizes(currentPackage.items) == old(Sizes(currentPackage.items))
    ensures currentPackage.maxSize == old(currentPackage.maxSize)
    ensures nextPackage !in packageList'
    ensures PackageSizes(packageList') ==
              old(PackageSizes(packageList)) + if close then [old(Sizes(currentPackage.items))] else []
    ensures old(AllCapacity(packageList, MAX_SIZE)) && currentPackage.maxSize == MAX_SIZE ==>
              AllCapacity(packageList', MAX_SIZE)
    ensures AllItems(packageList') + nextPackage.items == old(AllItems(packageList) + currentPackage.items)
  {
    FlagsAllPlaced(itemList);
    close := currentPackage.IsFull() || !added || AllAdded(itemList);
    unadded := AnyUnadded(itemList);
    if close {
      packageList', nextPackage := ClosePackage(currentPackage, packageList);
    } else {
      packageList', nextPackage := packageList, currentPackage;
    }
  }

  /**
   * Closes `currentPackage`: appends it to `packageList`, after the packages closed before
   * it, and continues with a new, empty package.
   */
  method ClosePackage(currentPackage: Package, packageList: seq<Package>)
    returns (packageList': seq<Package>, nextPackage: Package)
    requires currentPackage !in packageList
    ensures packageList' == packageList + [currentPackage]
    ensures fresh(nextPackage) && nextPackage.items == [] && nextPackage.maxSize == MAX_SIZE
    ensures PackageSizes(packageList') == old(PackageSizes(packageList)) + [old(Sizes(currentPackage.items))]
    ensures old(AllCapacity(packageList, MAX_SIZE)) && currentPackage.maxSize == MAX_SIZE ==>
              AllCapacity(packageList', MAX_SIZE)
    ensures AllItems(packageList') + nextPackage.items == old(AllItems(packageList) + currentPackage.items)
  {
    nextPackage := new Package();
    assert AllItems(packageList) == old(AllItems(packageList));
    AllItemsAppend(packageList, currentPackage);
    assert PackageSizes(packageList) == old(PackageSizes(packageList));
    assert AllCapacity(packageList, MAX_SIZE) == old(AllCapacity(packageList, MAX_SIZE));
    PackageSizesAppend(packageList, currentPackage);
    packageList' := packageList + [currentPackage];
  }

  /** Fresh, not yet added items of the given sizes, in order. */
  method CreateItems(sizes: seq<int>) returns (itemList: seq<Item>)
    ensures Sizes(itemList) == sizes
    ensures Flags(itemList) == NonePlaced(|sizes|)
    ensures Distinct(itemList)
    ensures forall k :: 0 <= k < |itemList| ==> fresh(itemList[k])
  {
    itemList := [];
    var i := 0;
    while i < |sizes|
      invariant 0 <= i <= |sizes| && |itemList| == i
      invariant Sizes(itemList) == sizes[..i]
      invariant forall k :: 0 <= k < i ==> !itemList[k].added
      invariant Distinct(itemList)
      invariant forall k :: 0 <= k < i ==> fresh(itemList[k])
    {
      var item := new Item(sizes[i]);
      itemList := itemList + [item];
      i := i + 1;
    }
  }

  /**
   * Runs the packer: the validation and conversion errors, or the packages closed by the
   * first-fit loop, in the order they were closed.
   */
  method PackageAll(args: Args) returns (r: Result<seq<Package>, Error>)
    ensures r.Failure? <==> PackSpec(args).Failure?
    ensures r.Failure? ==> r.error == PackSpec(args).error
    ensures r.Success? ==> PackageSizes(r.value) == PackSpec(args).value
    ensures r.Success? ==> AllCapacity(r.value, MAX_SIZE)
    ensures r.Success? ==> Distinct(AllItems(r.value))
    ensures r.Success? ==> forall x :: x in AllItems(r.value) ==> fresh(x)
  {
    var validated := ValidateRaw(args);
    if validated.Failure? {
      return Failure(validated.error);
    }
    var converted := OrderedDescSizes(validated.value);
    if converted.Failure? {
      return Failure(converted.error);
    }
    var itemList := CreateItems(converted.value);
    var packageList := PlaceItems(itemList, converted.value);
    return Success(packageList);
  }

  /**
   * The placement loop: while some item is not added, add the first one the current package
   * accepts, then close the current package if it is full, if nothing was added or if every
   * item is now added.
   */
  method PlaceItems(itemList: seq<Item>, ghost sizes: seq<int>) returns (packageList: seq<Package>)
    requires Sizes(itemList) == sizes && Bounded(sizes) && Distinct(itemList)
    requires Flags(itemList) == NonePlaced(|sizes|)
    modifies itemList
    ensures PackageSizes(packageList) == PackSizes(sizes)
    ensures AllCapacity(packageList, MAX_SIZE)
    ensures AllAdded(itemList)
    ensures Distinct(AllItems(packageList))
    ensures forall x :: x in AllItems(packageList) <==> x in itemList
  {
    packageList := [];
    var currentPackage := new Package();
    ghost var placed := NonePlaced(|sizes|);
    ghost var cur: seq<int> := [];
    ghost var done: seq<seq<int>> := [];
    ghost var held: seq<Item> := [];

    var unadded := AnyUnadded(itemList);
    while unadded
      invariant unadded == !AllPlaced(placed)
      invariant Sizes(itemList) == sizes && Distinct(itemList)
      invariant fresh(currentPackage)
      invariant Flags(itemList) == placed && |placed| == |sizes|
      invariant currentPackage !in packageList
      invariant currentPackage.maxSize == MAX_SIZE
      invariant Sizes(currentPackage.items) == cur
      invariant PackageSizes(packageList) == done
      invariant AllCapacity(packageList, MAX_SIZE)
      invariant done + PlaceAll(sizes, placed, cur) == PackSizes(sizes)
      invariant AllItems(packageList) + currentPackage.items == held
      invariant Accounted(itemList, placed, held)
      invariant !unadded ==> cur == []
      decreases |UnplacedBag(sizes, placed)|, if cur == [] then 0 else 1
    {
      assert currentPackage.ItemsTotalSize() == Sum(cur);
      var itemToAdd;
      itemToAdd, held := AddFirstAccepted(itemList, currentPackage, packageList, held);
      var close;
      close, packageList, currentPackage, unadded :=
        CloseIfDone(itemList, currentPackage, packageList, itemToAdd.Some?);
      StepProgress(sizes, placed, cur);
      LoopStep(sizes, placed, cur, done);
      ghost var placed', cur' := NextPlaced(sizes, placed, cur), NextCur(sizes, placed, cur);
      assert close == Closes(sizes, placed, cur);
      if close {
        done := done + [cur'];
        placed, cur := placed', [];
      } else {
        placed, cur := placed', cur';
      }
    }
    FlagsAllPlaced(itemList);
    AccountedAll(itemList, placed, held);
    AppendEmpty(AllItems(packageList), currentPackage.items);
  }
}
