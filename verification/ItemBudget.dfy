/** The bound on the work that one audio file may cause. */
module ItemBudgets {
  const MAXIMUM_ITEMS := 250_000

  /** The counter every parser of a file shares. */
  class ItemBudget {
    var items: nat

    constructor ()
      ensures items == 0
    {
      items := 0;
    }

    method Consume() returns (ok: bool)
      requires items <= MAXIMUM_ITEMS
      modifies this
      ensures ok <==> old(items) < 250_000
      ensures items == old(items) + (if ok then 1 else 0) <= 250_000
    {
      if items >= MAXIMUM_ITEMS {
        return false;
      }
      items := items + 1;
      ok := true;
    }
  }
}
