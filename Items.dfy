/**
 Item identifiers, their canonical order, and the delegate that supplies
 each item's block size and insets.
 */
module Items {
  import opened Geometry

  datatype Option<T> = None | Some(value: T)

  /** An item, identified by its section and its row within the section. */
  datatype IndexPath = IndexPath(section: nat, row: nat)

  /** Strict canonical order: by section, then by row. */
  predicate LexLt(a: IndexPath, b: IndexPath)
  {
    a.section < b.section || (a.section == b.section && a.row < b.row)
  }

  predicate LexLe(a: IndexPath, b: IndexPath)
  {
    a == b || LexLt(a, b)
  }

  lemma LexLtTransitive(a: IndexPath, b: IndexPath, c: IndexPath)
    requires LexLt(a, b) && LexLt(b, c)
    ensures LexLt(a, c)
  {
  }

  /**
   The layout's delegate: a block size and insets per item. A present
   delegate is always asked for both; every block size is at least 1 x 1.
   */
  datatype Delegate = Delegate(blockSizeFor: IndexPath -> Size, insetsFor: IndexPath -> Insets)

  /** The block size of an item: the delegate's answer, or 1 x 1 without a delegate. */
  function BlockSizeOf(d: Option<Delegate>, id: IndexPath): (sz: Size)
    ensures d.None? ==> sz == Size(1, 1)
  {
    match d
    case None => Size(1, 1)
    case Some(del) => del.blockSizeFor(id)
  }

  /** The insets of an item: the delegate's answer, or none without a delegate. */
  function InsetsOf(d: Option<Delegate>, id: IndexPath): (i: Insets)
    ensures d.None? ==> i == Insets(0, 0, 0, 0)
  {
    match d
    case None => Insets(0, 0, 0, 0)
    case Some(del) => del.insetsFor(id)
  }
}
