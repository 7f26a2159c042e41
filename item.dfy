/** An item: the size read from one input digit, and whether it has been placed in a package. */
module Items {

  class Item {
    /** The size of the item; set once by the constructor and never written again. */
    const itemSize: int

    /** Whether the item has been added to a package; only `Package.AddItem` sets it. */
    var added: bool

    /** A new item of the given size, not yet added; the size is not range-checked. */
    constructor (size: int)
      ensures itemSize == size
      ensures !added
    {
      itemSize := size;
      added := false;
    }
  }
}
