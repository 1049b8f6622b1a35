/**
  The inventory store: the module-level `stock_data` dictionary from item name
  to quantity, and the functions that change and query it (`add_item`,
  `remove_item`, `get_qty`, `check_low_items`).

  Neither `add_item` nor `remove_item` raises on bad input: each logs a warning
  and returns. The model's methods return the warning they log, or `None`
  when the call took effect.
 */
module InventorySystem {
  import opened Wrappers
  import opened PyValues
  import opened OrderedDict

  /** The warnings `add_item` and `remove_item` log instead of acting. */
  datatype Warning = InvalidItemName | InvalidQuantity | NonExistentItem

  /** One entry of a caller's `logs` list: the quantity argument and the item name (its timestamp is not modelled). */
  datatype LogEntry = Added(qty: Value, item: string)

  /**
    The argument checks `add_item` and `remove_item` share: first the name must
    be a non-empty `str`, then the quantity an `int` (a `bool` passes).
   */
  function CheckArgs(item: Value, qty: Value): (r: Result<(string, int), Warning>)
    ensures r.Ok? <==> item.Str? && item.s != "" && (qty.Int? || qty.Bool?)
    ensures r.Ok? ==> r.value == (item.s, if qty.Bool? then (if qty.b then 1 else 0) else qty.i)
    ensures r.Err? ==> r.error == if item.Str? && item.s != "" then InvalidQuantity else InvalidItemName
  {
    if !IsItemName(item) then Err(InvalidItemName)
    else if AsInt(qty).None? then Err(InvalidQuantity)
    else Ok((item.s, AsInt(qty).value))
  }

  /**
    What an accepted `add_item(name, n)` does to the store: the quantity of
    `name` grows by `n` from its old value, or from 0 when absent, with no
    floor, so the entry stays even when the sum is 0 or negative. No other
    entry changes; a new name goes last in the iteration order.
   */
  function AddSpec(d: Dict, name: string, n: int): (r: Dict)
    requires d.Valid()
    ensures r.Valid()
    ensures name in r.quantities && r.quantities[name] == d.Get(name, 0) + n
    ensures forall k :: k != name ==> (k in r.quantities <==> k in d.quantities)
    ensures forall k :: k != name && k in d.quantities ==> r.quantities[k] == d.quantities[k]
    ensures name in d.quantities ==> r.keys == d.keys
    ensures name !in d.quantities ==> r.keys == d.keys + [name]
  {
    d.Set(name, d.Get(name, 0) + n)
  }

  /**
    What an accepted `remove_item(name, n)` does to the store. An absent name
    changes nothing. Otherwise the quantity drops by `n` (a negative `n`
    raises it); a result of 0 or less deletes the entry, any other result is
    stored in place and is positive. No other entry changes, and the
    remaining names keep their order.
   */
  function RemoveSpec(d: Dict, name: string, n: int): (r: Dict)
    requires d.Valid()
    ensures r.Valid()
    ensures name !in d.quantities ==> r == d
    ensures name in d.quantities && d.quantities[name] - n <= 0 ==>
      name !in r.quantities && r.Get(name, 0) == 0
    ensures name in d.quantities && d.quantities[name] - n > 0 ==>
      name in r.quantities && r.quantities[name] == d.quantities[name] - n > 0 && r.keys == d.keys
    ensures forall k :: k != name ==> (k in r.quantities <==> k in d.quantities)
    ensures forall k :: k != name && k in d.quantities ==> r.quantities[k] == d.quantities[k]
  {
    if name !in d.quantities then d
    else
      var lowered := d.Set(name, d.quantities[name] - n);
      if lowered.quantities[name] <= 0 then lowered.Delete(name) else lowered
  }

  /** Proof step for `RemoveItem`: for a present name, `RemoveSpec` is the two steps `remove_item` takes, store the lowered quantity, then delete the entry if that is 0 or less. */
  lemma RemoveSpecOfPresent(d: Dict, name: string, n: int)
    requires d.Valid() && name in d.quantities
    ensures var lowered := d.Set(name, d.quantities[name] - n);
      RemoveSpec(d, name, n) == if lowered.quantities[name] <= 0 then lowered.Delete(name) else lowered
  {
    var lowered := d.Set(name, d.quantities[name] - n);
    if lowered.quantities[name] <= 0 {
      assert RemoveSpec(d, name, n) == lowered.Delete(name);
    } else {
      assert RemoveSpec(d, name, n) == lowered;
    }
  }

  /** `remove_item` never reorders the names that remain. */
  lemma RemoveKeepsOrder(d: Dict, name: string, n: int)
    requires d.Valid()
    ensures IsSubsequence(RemoveSpec(d, name, n).keys, d.keys)
  {
    if name in d.quantities && d.quantities[name] - n <= 0 {
      d.Set(name, d.quantities[name] - n).DeleteKeepsOrder(name);
    } else {
      SubsequenceOfItself(d.keys);
    }
  }

  /**
    Removing what was just added restores the store, order included, when the
    name was absent or held a positive quantity. (A name held at 0 or below
    would be deleted instead.)
   */
  lemma RemoveUndoesAdd(d: Dict, name: string, n: int)
    requires d.Valid()
    requires name !in d.quantities || d.quantities[name] > 0
    ensures RemoveSpec(AddSpec(d, name, n), name, n) == d
  {
    if name !in d.quantities {
      var added := AddSpec(d, name, n);
      assert added.Set(name, added.quantities[name] - n) == d.Set(name, 0);
      d.DeleteUndoesSetOfNewKey(name, 0);
    } else {
      var added := AddSpec(d, name, n);
      assert added.quantities[name := added.quantities[name] - n] == d.quantities;
    }
  }

  /** Adding back what was just removed restores the store when the removal left the entry in place. */
  lemma AddUndoesRemove(d: Dict, name: string, n: int)
    requires d.Valid()
    requires name in d.quantities && d.quantities[name] - n > 0
    ensures AddSpec(RemoveSpec(d, name, n), name, n) == d
  {
    var removed := RemoveSpec(d, name, n);
    assert removed.quantities[name := d.quantities[name]] == d.quantities;
  }

  /** The names among `keys` whose quantity in `q` is below `threshold`, in the order of `keys`. */
  function LowItems(keys: seq<string>, q: map<string, int>, threshold: int): seq<string>
    requires forall k :: k in keys ==> k in q
  {
    if keys == [] then []
    else
      var last := keys[|keys| - 1];
      LowItems(keys[..|keys| - 1], q, threshold) + (if q[last] < threshold then [last] else [])
  }

  /** A name is reported exactly when it is listed and its quantity is below the threshold. */
  lemma {:induction false} LowItemsMembers(keys: seq<string>, q: map<string, int>, threshold: int)
    requires forall k :: k in keys ==> k in q
    ensures forall k :: k in LowItems(keys, q, threshold) <==> k in keys && q[k] < threshold
  {
    if keys != [] {
      var front := keys[..|keys| - 1];
      LowItemsMembers(front, q, threshold);
      assert keys == front + [keys[|keys| - 1]];
    }
  }

  /** The names are reported in the order in which `keys` lists them. */
  lemma {:induction false} LowItemsInOrder(keys: seq<string>, q: map<string, int>, threshold: int)
    requires forall k :: k in keys ==> k in q
    ensures IsSubsequence(LowItems(keys, q, threshold), keys)
  {
    if keys != [] {
      var front := keys[..|keys| - 1];
      var last := keys[|keys| - 1];
      var low := LowItems(front, q, threshold);
      LowItemsInOrder(front, q, threshold);
      if q[last] < threshold {
        assert LowItems(keys, q, threshold) == low + [last];
        assert (low + [last])[..|low|] == low;
      } else {
        assert LowItems(keys, q, threshold) == low;
        if low != [] {
          LowItemsMembers(front, q, threshold);
          assert low[|low| - 1] in low;
        }
      }
    }
  }

  /** With distinct keys every name is reported once. */
  lemma {:induction false} LowItemsDistinct(keys: seq<string>, q: map<string, int>, threshold: int)
    requires forall k :: k in keys ==> k in q
    requires Distinct(keys)
    ensures Distinct(LowItems(keys, q, threshold))
  {
    if keys != [] {
      var front := keys[..|keys| - 1];
      var last := keys[|keys| - 1];
      LowItemsDistinct(front, q, threshold);
      LowItemsMembers(front, q, threshold);
      assert last !in front;
    }
  }

  /**
    The three properties above pin the report down: any list of distinct keys'
    names that keeps their order and holds exactly the names below the
    threshold is the report.
   */
  lemma {:induction false} LowItemsUnique(keys: seq<string>, q: map<string, int>, threshold: int, r: seq<string>)
    requires forall k :: k in keys ==> k in q
    requires Distinct(keys)
    requires IsSubsequence(r, keys)
    requires forall k :: k in r <==> k in keys && q[k] < threshold
    ensures r == LowItems(keys, q, threshold)
  {
    if keys == [] {
    } else {
      var front := keys[..|keys| - 1];
      var last := keys[|keys| - 1];
      assert keys == front + [last];
      assert last !in front;
      if r != [] && r[|r| - 1] == last {
        var r' := r[..|r| - 1];
        assert r == r' + [last];
        SubsequenceMembers(r', front);
        LowItemsUnique(front, q, threshold, r');
      } else {
        assert IsSubsequence(r, front);
        SubsequenceMembers(r, front);
        assert last !in r;
        LowItemsUnique(front, q, threshold, r);
      }
    }
  }

  /** The caller's `logs` list that `add_item` appends to. */
  class LogList {
    var entries: seq<LogEntry>

    constructor ()
      ensures entries == []
    {
      entries := [];
    }
  }

  /** The module-level `stock_data` dictionary, with the functions that act on it as methods. */
  class Inventory {
    var stockData: Dict

    ghost predicate Valid()
      reads this
    {
      stockData.Valid()
    }

    /** The store is empty when the program starts. */
    constructor ()
      ensures Valid() && stockData == Dict(map[], [])
    {
      stockData := Dict(map[], []);
    }

    /** `add_item(item, qty, logs)`; a `null` `logs` is the default `None`, whose fresh list nobody sees. */
    method AddItem(item: Value, qty: Value, logs: LogList?) returns (warning: Option<Warning>)
      requires Valid()
      modifies this, logs
      ensures Valid()
      ensures match CheckArgs(item, qty)
        case Err(w) =>
          && warning == Some(w)
          && stockData == old(stockData)
          && (logs != null ==> logs.entries == old(logs.entries))
        case Ok((name, n)) =>
          && warning == None
          && stockData == AddSpec(old(stockData), name, n)
          && (logs != null ==> logs.entries == old(logs.entries) + [Added(qty, name)])
    {
      var check := CheckArgs(item, qty);
      if check.Err? {
        return Some(check.error);
      }
      var (name, n) := check.value;
      stockData := stockData.Set(name, stockData.Get(name, 0) + n);
      if logs != null {
        logs.entries := logs.entries + [Added(qty, name)];
      }
      warning := None;
    }

    /** `remove_item(item, qty)` */
    method RemoveItem(item: Value, qty: Value) returns (warning: Option<Warning>)
      requires Valid()
      modifies this
      ensures Valid()
      ensures match CheckArgs(item, qty)
        case Err(w) => warning == Some(w) && stockData == old(stockData)
        case Ok((name, n)) =>
          && warning == (if name in old(stockData.quantities) then None else Some(NonExistentItem))
          && stockData == RemoveSpec(old(stockData), name, n)
    {
      var check := CheckArgs(item, qty);
      if check.Err? {
        return Some(check.error);
      }
      var (name, n) := check.value;
      if name !in stockData.quantities {
        // reading the missing entry fails before anything is written
        return Some(NonExistentItem);
      }
      RemoveSpecOfPresent(stockData, name, n);
      stockData := stockData.Set(name, stockData.quantities[name] - n);
      if stockData.quantities[name] <= 0 {
        stockData := stockData.Delete(name);
      }
      warning := None;
    }

    /** `get_qty(item)`: the stored quantity, 0 for an absent name; it never fails. */
    function GetQty(item: string): (q: int)
      reads this
      ensures item in stockData.quantities ==> q == stockData.quantities[item]
      ensures item !in stockData.quantities ==> q == 0
    {
      stockData.Get(item, 0)
    }

    /** `check_low_items(threshold)` */
    method CheckLowItems(threshold: int) returns (result: seq<string>)
      requires Valid()
      ensures result == LowItems(stockData.keys, stockData.quantities, threshold)
      ensures forall k :: k in result <==> k in stockData.quantities && stockData.quantities[k] < threshold
      ensures Distinct(result) && IsSubsequence(result, stockData.keys)
    {
      var order, stock := stockData.keys, stockData.quantities;
      result := [];
      var i := 0;
      while i < |order|
        invariant 0 <= i <= |order|
        invariant result == LowItems(order[..i], stock, threshold)
      {
        var name := order[i];
        assert order[..i + 1][..i] == order[..i];
        if stock[name] < threshold {
          result := result + [name];
        }
        i := i + 1;
      }
      assert order[..i] == order;
      LowItemsMembers(order, stock, threshold);
      LowItemsDistinct(order, stock, threshold);
      LowItemsInOrder(order, stock, threshold);
    }
  }

  /**
    The `add_item` calls `main` makes, on an empty store: banana's added
    negative quantity is kept, and the call with an int name and a str
    quantity is rejected.
   */
  lemma MainAdds()
    ensures CheckArgs(Int(123), Str("ten")) == Err(InvalidItemName)
    ensures AddSpec(Dict(map[], []), "apple", 10) == Dict(map["apple" := 10], ["apple"])
    ensures Dict(map["apple" := 10], ["apple"]).Valid()
    ensures AddSpec(Dict(map["apple" := 10], ["apple"]), "banana", -2)
         == Dict(map["apple" := 10, "banana" := -2], ["apple", "banana"])
  {
    var one := Dict(map["apple" := 10], ["apple"]);
    assert AddSpec(Dict(map[], []), "apple", 10) == one;
  }

  /** The `remove_item` calls `main` makes next: apple drops to 7, and removing the absent orange changes nothing. */
  lemma MainRemoves()
    ensures Dict(map["apple" := 10, "banana" := -2], ["apple", "banana"]).Valid()
    ensures RemoveSpec(Dict(map["apple" := 10, "banana" := -2], ["apple", "banana"]), "apple", 3)
         == Dict(map["apple" := 7, "banana" := -2], ["apple", "banana"])
    ensures Dict(map["apple" := 7, "banana" := -2], ["apple", "banana"]).Valid()
    ensures RemoveSpec(Dict(map["apple" := 7, "banana" := -2], ["apple", "banana"]), "orange", 1)
         == Dict(map["apple" := 7, "banana" := -2], ["apple", "banana"])
  {
    var two := Dict(map["apple" := 10, "banana" := -2], ["apple", "banana"]);
    assert two.Set("apple", 7) == Dict(map["apple" := 7, "banana" := -2], ["apple", "banana"]);
  }

  /** The queries `main` makes afterwards: apple's quantity is 7 and banana is the one name below the default threshold 5. */
  lemma MainQueries()
    ensures
      var store := Dict(map["apple" := 7, "banana" := -2], ["apple", "banana"]);
      && store.Get("apple", 0) == 7
      && LowItems(store.keys, store.quantities, 5) == ["banana"]
  {
    var q := map["apple" := 7, "banana" := -2];
    assert ["apple", "banana"][..1] == ["apple"];
    assert ["apple"][..0] == [];
    assert LowItems(["apple"], q, 5) == [];
  }
}
