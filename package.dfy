/**
 * A package: an ordered list of items and a capacity, with its occupancy queries,
 * the operation that adds an item, and its rendering.
 */
module Packages {
  import opened Constants
  import opened Items
  import Text

  /** The sizes of a list of items, in order. */
  function Sizes(items: seq<Item>): (s: seq<int>)
    ensures |s| == |items| && forall k :: 0 <= k < |items| ==> s[k] == items[k].itemSize
  {
    if items == [] then [] else Sizes(items[..|items| - 1]) + [items[|items| - 1].itemSize]
  }

  /** The sum of a list of sizes. */
  function Sum(s: seq<int>): int {
    if s == [] then 0 else Sum(s[..|s| - 1]) + s[|s| - 1]
  }

  lemma SumAppend(s: seq<int>, x: int)
    ensures Sum(s + [x]) == Sum(s) + x
  {
    assert (s + [x])[..|s|] == s;
  }

  /** The decimal texts of the sizes, concatenated in order. */
  function RenderSizes(sizes: seq<int>): string {
    Text.Concat(seq(|sizes|, k requires 0 <= k < |sizes| => Text.IntToDecimal(sizes[k])))
  }

  /** The rendered packages joined by the delimiter. */
  function RenderAll(packages: seq<seq<int>>): string {
    Text.Join(seq(|packages|, k requires 0 <= k < |packages| => RenderSizes(packages[k])), DELIMITER)
  }

  /** For sizes that are digits, the rendering has one digit character per item, in order. */
  lemma RenderDigitSizes(sizes: seq<int>)
    requires forall k :: 0 <= k < |sizes| ==> 0 <= sizes[k] <= 9
    ensures |RenderSizes(sizes)| == |sizes|
    ensures forall k :: 0 <= k < |sizes| ==> RenderSizes(sizes)[k] == Text.DigitChar(sizes[k])
  {
    var parts := seq(|sizes|, k requires 0 <= k < |sizes| => Text.IntToDecimal(sizes[k]));
    Text.ConcatDigitsLength(parts);
  }

  /** The sizes of each package of a list, in order. */
  function PackageSizes(packages: seq<Package>): (s: seq<seq<int>>)
    reads packages
    ensures |s| == |packages| && forall k :: 0 <= k < |packages| ==> s[k] == Sizes(packages[k].items)
  {
    if packages == [] then []
    else PackageSizes(packages[..|packages| - 1]) + [Sizes(packages[|packages| - 1].items)]
  }

  /** Every package has capacity `capacity`. */
  predicate AllCapacity(packages: seq<Package>, capacity: int)
    reads packages
  {
    forall k :: 0 <= k < |packages| ==> packages[k].maxSize == capacity
  }

  lemma PackageSizesAppend(packages: seq<Package>, p: Package)
    ensures PackageSizes(packages + [p]) == PackageSizes(packages) + [Sizes(p.items)]
  {
  }

  class Package {
    /** The items, in the order they were added. */
    var items: seq<Item>

    /** The capacity of the package. */
    var maxSize: int

    /** A new package is empty and has capacity `MAX_SIZE`. */
    constructor ()
      ensures items == []
      ensures maxSize == MAX_SIZE
    {
      maxSize := MAX_SIZE;
      items := [];
    }

    /** The total size of the items in the package. */
    function ItemsTotalSize(): int
      reads this
    {
      Sum(Sizes(items))
    }

    /** The package is full when its items occupy at least its capacity. */
    predicate IsFull()
      reads this
    {
      maxSize <= ItemsTotalSize()
    }

    /** The package has room for `nextItem`. */
    predicate Accept(nextItem: Item)
      reads this
    {
      maxSize >= ItemsTotalSize() + nextItem.itemSize
    }

    /**
     * Appends `nextItem` and marks it as added. The capacity is not checked,
     * so the total may exceed `maxSize` unless the caller has asked `Accept` first.
     */
    method AddItem(nextItem: Item)
      modifies this, nextItem
      ensures items == old(items) + [nextItem]
      ensures maxSize == old(maxSize)
      ensures nextItem.added
      ensures ItemsTotalSize() == old(ItemsTotalSize()) + nextItem.itemSize
      ensures old(Accept(nextItem)) ==> ItemsTotalSize() <= maxSize
    {
      items := items + [nextItem];
      nextItem.added := true;
      assert Sizes(items) == Sizes(old(items)) + [nextItem.itemSize];
      SumAppend(Sizes(old(items)), nextItem.itemSize);
    }

    /** The decimal texts of the item sizes, concatenated in insertion order. */
    function ToDisplayString(): string
      reads this
    {
      RenderSizes(Sizes(items))
    }

    /** The display strings of the packages, in order, joined by the delimiter. */
    static function DisplayAll(allToDisplay: seq<Package>): (s: string)
      reads allToDisplay
      ensures s == RenderAll(PackageSizes(allToDisplay))
    {
      var texts := seq(|allToDisplay|, k requires 0 <= k < |allToDisplay| reads allToDisplay =>
                         allToDisplay[k].ToDisplayString());
      var sizes := PackageSizes(allToDisplay);
      assert texts == seq(|sizes|, k requires 0 <= k < |sizes| => RenderSizes(sizes[k]));
      Text.Join(texts, DELIMITER)
    }
  }
}
