# vsct-packaging in Dafny

vsct-packaging is a first-fit-decreasing bin packer. Its input is one string of decimal
digits, and each digit is an item of that size. The items are sorted by decreasing size.
They are then grouped into packages of capacity 10: each step adds, to the current package,
the first item in sorted order that is not yet added and that the package accepts. The
current package is closed when it is full, when no item fitted, or when every item has been
added. The result is displayed as each package's digits, with the packages joined by `/`.

The project models three things:

- `Item`: a class with a size and an `added` flag.
- `Package`: a class holding a sequence of items and a capacity. `AddItem` appends an item
  and sets that item's flag, so it modifies both objects.
- `Packager.packageAll`: an imperative loop over these objects.

The loop is proved equal to a value-level specification, `PlaceAll`. `PlaceAll` takes the
same steps on a sequence of sizes and a sequence of placed marks. The packing properties are
proved about `PlaceAll`.

Modules, one per file:

- `constants.dfy`: `MAX_SIZE` (10) and `DELIMITER` (`"/"`).
- `wrappers.dfy`: `Option` and `Result`.
- `text.dfy`: decimal text of integers and the joining of strings. Each comes with the
  inverse it is proved against (reading back, splitting).
- `item.dfy`: the `Item` class.
- `package.dfy`: the `Package` class, and the functions that read sizes off items and
  packages.
- `packager.dfy`:
  - argument validation;
  - conversion of the digit string to sorted sizes;
  - the placement specification `PlaceAll`;
  - the object-level loop `PackageAll` / `PlaceItems`.
- `packing_properties.dfy`: the properties of the packer's result.
- `scenarios.dfy`: the concrete cases of the repository's unit tests, plus the "99999" case.

The two exceptions the packer throws are modelled as the two constructors of `Error`:
`IllegalArgument` for `IllegalArgumentException` and `NumberFormat` for
`NumberFormatException`. An `IllegalArgument` error also records which check failed. A Java
`null` argument array is `None`, and a `null` string in the array is an element `None`.

## Model

| member | source | states |
|---|---|---|
| Items.Item.constructor | vsct-packaging/src/main/java/vsct/packaging/Item.java:31-33 | the item has exactly the given size (no range check, so 13 is allowed) and is not yet added |
| Packages.Package.constructor | vsct-packaging/src/main/java/vsct/packaging/Package.java:35-39 | a new package has no items and capacity `MAX_SIZE` = 10 |
| Packages.Package.AddItem | vsct-packaging/src/main/java/vsct/packaging/Package.java:79-83 | appends the item after the earlier ones; keeps the capacity; sets the item's `added`; the total grows by the item's size; the capacity is not checked, and the total stays within it only if the package accepted the item beforehand |
| Packages.Package.DisplayAll | vsct-packaging/src/main/java/vsct/packaging/Package.java:103-106 | the display of a list of packages is each package's sizes rendered by `RenderSizes`, joined by `/` |
| Packages.PackageSizes | vsct-packaging/src/test/java/vsct/packaging/PackagerTest.java:70-73 | the sizes read off each package of a list are those of its items, in order, each read as `getItemSize` (as `getItemsTotalSize` also reads them, Package.java:55-58) |
| Packages.RenderDigitSizes | vsct-packaging/src/main/java/vsct/packaging/Package.java:90-96 | a package of digit-sized items displays as one digit character per item, in insertion order |
| Packager.ValidateRaw | vsct-packaging/src/main/java/vsct/packaging/Packager.java:89-107 | succeeds, returning the argument, iff there is exactly one non-null, non-empty argument; a null or empty array fails first, then more than one argument, then a null or empty string, each as an illegal argument |
| Packager.ParseDigits | vsct-packaging/src/main/java/vsct/packaging/Packager.java:120-131 | succeeds iff every character is an ASCII digit, and then gives each digit's value in order; otherwise fails with the number-format error |
| Packager.SortDescending | vsct-packaging/src/main/java/vsct/packaging/Packager.java:133 | the result is in decreasing order and is a permutation of the input |
| Packager.OrderedDescSizes | vsct-packaging/src/main/java/vsct/packaging/Packager.java:119-136 | a non-digit character fails with the number-format error; otherwise the result is the digits' values (as a multiset), sorted by decreasing size, each between 0 and 9 |
| Packager.FirstFitFrom | vsct-packaging/src/main/java/vsct/packaging/Packager.java:51-53 | the index found is of an item not yet placed that fits, and every earlier item is placed or does not fit; no index is found only if no item from the start position on is both unplaced and fitting |
| Packager.StepProgress | vsct-packaging/src/main/java/vsct/packaging/Packager.java:44-73 | with every size at most `MAX_SIZE`, a step either places an item, or finds nothing only for a package that is not empty; this is the termination argument, and the bound is its precondition |
| Packager.PlaceAll | vsct-packaging/src/main/java/vsct/packaging/Packager.java:44-73 | the value-level copy of the loop, step by step on sizes and placed marks; its contract states that it closes no package exactly when every item is already placed; its other properties are the `PlaceAll*` lemmas and `LoopStep` |
| Packager.PackSizes | vsct-packaging/src/main/java/vsct/packaging/Packager.java:28-79 | first-fit-decreasing on sorted sizes, starting with nothing placed and an empty package; its contract states that it gives no package exactly for no items; its other properties are in `PackSpecProperties` |
| Packager.PackSpec | vsct-packaging/src/main/java/vsct/packaging/Packager.java:28-79 | the value-level `packageAll`: validation, conversion, then `PackSizes`; its contract states that a success gives at least one package; its other properties are in `PackSpecProperties` |
| Packager.LoopStep | vsct-packaging/src/main/java/vsct/packaging/Packager.java:44-73 | one loop turn keeps "packages closed so far followed by `PlaceAll` of the rest" equal to the whole result |
| Packager.FlagsAllPlaced | vsct-packaging/src/main/java/vsct/packaging/Packager.java:44 | the loop condition (some item not added) and the "all added" test agree with the placed marks |
| Packager.FindFirstAccepted | vsct-packaging/src/main/java/vsct/packaging/Packager.java:51-53 | the scan returns exactly the first-fit index of the specification, on the items' sizes and flags and the package's total and capacity |
| Packager.AddFirstAccepted | vsct-packaging/src/main/java/vsct/packaging/Packager.java:51-61 | appends to the current package that very item object, the first one in list order that is not added and that the package accepts, if any; otherwise leaves the package's items as they were; sets only that item's flag; leaves the closed packages unchanged; the items held by all the packages grow by exactly that item, and they stay distinct items of the list, held exactly when flagged |
| Packager.CloseIfDone | vsct-packaging/src/main/java/vsct/packaging/Packager.java:68-72 | the current package is closed exactly when it is full, when nothing was added or when every item is added; a closed package is appended to the list in closing order and replaced by a new, empty package; an open one is kept; also gives the loop condition for the next turn; the items held by all the packages are the same before and after |
| Packager.ClosePackage | vsct-packaging/src/main/java/vsct/packaging/Packager.java:70-71 | appends the current package after the packages closed before it, with its sizes unchanged, and starts a new, empty package of capacity 10 |
| Packager.CreateItems | vsct-packaging/src/main/java/vsct/packaging/Packager.java:131 | fresh, distinct items of the given sizes, none of them added |
| Packager.PlaceItems | vsct-packaging/src/main/java/vsct/packaging/Packager.java:38-78 | the loop on objects ends; the packages it returns have exactly the sizes `PackSizes` gives, in closing order, all of capacity 10; every item ends up added; and the items of the returned packages are exactly the items of the list, none of them twice |
| Packager.AccountedAdd | vsct-packaging/src/main/java/vsct/packaging/Packager.java:51-61 | adding an item that is not yet flagged and flagging it keeps the held items distinct items of the list, held exactly when flagged |
| Packager.AccountedAll | vsct-packaging/src/main/java/vsct/packaging/Packager.java:44-73 | once every item is flagged, the held items are exactly the items of the list, none twice |
| Packager.InOnePackage | vsct-packaging/src/main/java/vsct/packaging/Packager.java:51-72 | when no item appears twice among the items of a list of packages, an item held by one package is held by no other |
| Packager.PackageAll | vsct-packaging/src/main/java/vsct/packaging/Packager.java:28-79 | fails exactly when the specification `PackSpec` fails, with the same error; otherwise returns packages whose sizes are those of `PackSpec`, all of capacity 10, holding newly created items, none of them twice |
| PackingProperties.PlaceAllMultiset | vsct-packaging/src/test/java/vsct/packaging/PackagerTest.java:57-87 | the items in the packages still to be closed are, as a multiset, the current package's plus the unplaced ones |
| PackingProperties.PlaceAllCapacity | vsct-packaging/src/test/java/vsct/packaging/PackagerTest.java:94-105 | every package closed from a state within capacity holds at most `MAX_SIZE` |
| PackingProperties.PlaceAllNonEmpty | vsct-packaging/src/test/java/vsct/packaging/PackagerTest.java:111-119 | no package closed by the loop is empty |
| PackingProperties.FlattenLength | vsct-packaging/src/test/java/vsct/packaging/PackagerTest.java:125-133 | with no package empty, there are no more packages than items |
| PackingProperties.PlaceAllFirstFit | vsct-packaging/src/main/java/vsct/packaging/Packager.java:51-72 | a package closed while not full has no room for any item of a later package: no item still unplaced when it closed fits it |
| PackingProperties.PackSpecProperties | vsct-packaging/src/main/java/vsct/packaging/Packager.java:28-79 | on success, the argument is all digits, and the packages hold exactly the input digits as a multiset; there are no more packages than digits; none is empty; each holds at most 10; and each package closed while not full has no room for any later item |
| PackingProperties.PackSpecDisplayRoundTrip | vsct-packaging/src/main/java/vsct/packaging/Package.java:103-106 | splitting the display of the result at `/` gives one part per package, and reading each part as digits gives back that package's sizes |
| PackingProperties.RenderAllRoundTrip | vsct-packaging/src/main/java/vsct/packaging/Package.java:90-106 | for a non-empty list of digit packages, the display splits back into the packages |
| PackingProperties.ParseRenderSizes | vsct-packaging/src/main/java/vsct/packaging/Package.java:90-96 | a package of digits displays as digits only, without `/`, and reading them back gives its sizes |
| Text.NatToDecimalRoundTrip | vsct-packaging/src/main/java/vsct/packaging/Package.java:93 | the decimal text of a natural number reads back as that number |
| Text.IntToDecimalRoundTrip | vsct-packaging/src/main/java/vsct/packaging/Package.java:93 | `Integer.toString` is injective: its text reads back as the same integer |
| Text.SplitJoin | vsct-packaging/src/main/java/vsct/packaging/Package.java:105 | joining parts that do not contain the separator and splitting the result gives the parts back |
| Scenarios.ItemIsAdded | vsct-packaging/src/test/java/vsct/packaging/PackageTest.java:28-39 | a new item is not added; a new package is empty; after adding, it has one item and the item is flagged |
| Scenarios.PackageAcceptsWithinCapacity | vsct-packaging/src/test/java/vsct/packaging/PackageTest.java:46-61 | an empty package accepts 3 and 10 and refuses 13; after adding 3 and 6 it refuses 2 |
| Scenarios.PackageDetectsWhenFull | vsct-packaging/src/test/java/vsct/packaging/PackageTest.java:67-80 | 2, 3, 4 leave the package not full; a further 4 fills it, with 4 items |
| Scenarios.PackageCalculatesItsSize | vsct-packaging/src/test/java/vsct/packaging/PackageTest.java:86-95 | the totals after adding 2, 4 and 12 are 2, 6 and 18, beyond the capacity |
| Scenarios.CapacityBoundary | vsct-packaging/src/main/java/vsct/packaging/Package.java:46-71 | an empty package holds 0 and is not full; at 9 it is not full, accepts 1 and refuses 2; at 10 it is full |
| Scenarios.DisplayStringIsOk | vsct-packaging/src/test/java/vsct/packaging/PackageTest.java:101-109 | sizes 2, 4, 12 display as "2412" |
| Scenarios.AllConcatIsOk | vsct-packaging/src/test/java/vsct/packaging/PackageTest.java:115-133 | packages 2, 4 and 3, 8 display as "24/38"; an empty list displays as "" |
| Scenarios.InvalidInputsAreRejected | vsct-packaging/src/test/java/vsct/packaging/PackagerTest.java:138-187 | a null array and an empty array fail for lack of arguments; `[""]` fails as an empty input; `["test", "test"]` fails with too many arguments; "z12234" and "122)à=)à34" fail with the number-format error |
| Scenarios.NinesSpec | vsct-packaging/src/main/java/vsct/packaging/Packager.java:28-79 | "99999" packs into five packages of one 9 each, displayed as "9/9/9/9/9" |
| Scenarios.NinesEachInTheirOwnPackage | vsct-packaging/src/main/java/vsct/packaging/Packager.java:28-79 | the object-level packer on "99999", displayed, gives "9/9/9/9/9", in 5 packages |

## Left out

- `Main.java` is not part of this model: console output and the top-level exception handler
  are I/O. In Java, `NumberFormatException` is a subclass of `IllegalArgumentException`, so
  that handler in fact catches both errors. The model keeps the two errors distinct, as the
  packer and its tests do.
- `Assert.notNull` and the null checks in `Package`: Dafny references and sequences are never
  null, so these checks have nothing left to reject.
- The Lombok-generated members of `Item` and `Package` (getters, setters, `equals`,
  `hashCode`, `toString`, and `Item`'s no-argument constructor). The algorithm uses none of
  them. `itemSize` is therefore a `const`, and `added` is written only by `AddItem`.
- `Character.isDigit` and `Character.getNumericValue` also accept non-ASCII Unicode digits.
  The model recognises only ASCII `'0'`..`'9'`.
- Java stream laziness and the order of `peek`. The conversion fails if any character is not
  a digit; the error is the same whichever character is met first.
- Integer width: sizes and totals are unbounded integers. With digit sizes, the totals stay
  below 20, so Java's `int` overflow cannot occur. `Item` and `Package` themselves take any
  size, and there the model differs for large sizes: for a package holding 1, Java's
  `1 + Integer.MAX_VALUE` wraps around to a negative total, so `accept` admits
  `Item(Integer.MAX_VALUE)` (Package.java:70), while the model's `Accept` refuses it.
- Packages.Package.ItemsTotalSize, Packages.Package.IsFull, Packages.Package.Accept: these
  are Dafny functions with no contract of their own. Each is defined exactly as its query
  (the sum of the sizes, `maxSize <= total`, `total + size <= maxSize`). Because they only
  read, `Accept` cannot change the package or the item. Their values are pinned by the
  scenarios and used by `FindFirstAccepted` and `CloseIfDone`.
- Packages.Package.ToDisplayString: also a function with no contract. Its rendering is
  stated by `RenderDigitSizes`, `ParseRenderSizes` and `DisplayStringIsOk`.
- Packager.FindFirstAccepted: returns the index of the item found, not the item itself
  (`Optional<Item>`). The caller then takes the item at that index.
- Packager.CreateItems: the items are created from the sizes after sorting, whereas Java
  creates them first and then sorts them. The items are fresh and differ only by size, so
  the result is the same.
- Packager.StepProgress, Packager.PlaceAll, Packager.PlaceItems: the loop is modelled only
  for sizes of at most `MAX_SIZE` (the `Bounded` precondition), which is what makes it end.
  For a larger size the Java loop does not end. Once every item still unplaced is larger
  than `MAX_SIZE`, such as an `Item(13)`, no item is accepted, so every turn closes an empty
  package, adds it to the list and starts a new one (Packager.java:44-73). `packageAll` cannot reach that state, because
  it builds items from digits only.
- Packager.PlaceItems: the loop condition is computed at the end of each turn, by
  `CloseIfDone`, rather than at its head. The two are equivalent, because nothing changes
  between the end of one turn and the start of the next.
- The random generation of inputs in `PackagerTest`: the properties those tests assert are
  proved for every input instead.
