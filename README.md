# Inventory store

A model of the in-memory inventory tracker in `inventory_system.py`. The
module-level dictionary `stock_data` maps item names to integer quantities.
Four functions act on it:

- `add_item` checks its arguments, adds to a quantity and logs the addition.
- `remove_item` checks its arguments and subtracts from a quantity, deleting
  the entry when the result is 0 or less.
- `get_qty` looks a quantity up.
- `check_low_items` lists the names whose quantity is below a threshold.

Files:

- `wrappers.dfy`: `Option` and `Result`.
- `py_values.dfy`: the Python argument values that the functions inspect with
  `isinstance`. These are a `str`, an `int`, a `bool` (which Python counts as
  an `int`), or anything else.
- `ordered_dict.dfy`: a Python `dict` from `str` to `int`, as a map plus the
  list of its keys in insertion order. Assigning to an existing key keeps its
  place, a new key goes last, and `del` keeps the other keys in order. The
  order matters because `check_low_items` reports names in the dictionary's
  iteration order.
- `inventory_system.dfy`: the argument checks and the effect of each
  operation, stated as functions on the dictionary (`AddSpec`, `RemoveSpec`,
  `LowItems`), with lemmas about them. The class `Inventory` holds
  `stock_data` as a field. Its methods `AddItem` and `RemoveItem` update that
  field in place, and `CheckLowItems` builds its result in a loop, as the
  Python does. Each method is proved against the matching function. The
  class `LogList` is the caller's `logs` list that `add_item` appends to.

`add_item` and `remove_item` never raise on bad input: they log a warning
and return. Each method returns the warning it would log, or `None` when the
call took effect.

Quantities are unbounded integers, like Python's `int`. `add_item` applies
no floor, so a negative total is stored and kept. Only `remove_item` deletes
entries, and only when the result is 0 or less (inventory_system.py:52-53).

## Model

| member | source | states |
|---|---|---|
| InventorySystem.CheckArgs | inventory_system.py:26-31 | A call is accepted exactly when the name is a non-empty `str` and the quantity an `int` or a `bool` (`True` counts as 1). A bad name is reported before a bad quantity. `remove_item` repeats the same checks at lines 44-49. |
| InventorySystem.AddSpec | inventory_system.py:34 | After an accepted `add_item`, the name holds its old quantity (0 if absent) plus `qty`, kept even when that is 0 or negative. Every other key and its quantity are unchanged. A present name keeps its place in the iteration order and a new name goes last. |
| InventorySystem.RemoveSpec | inventory_system.py:50-55 | An absent name leaves the store unchanged. If the old quantity minus `qty` is 0 or less, the entry is deleted and its quantity reads as 0. Otherwise the name holds exactly that positive difference, in its old place. Every other key and its quantity are unchanged. |
| InventorySystem.RemoveKeepsOrder | inventory_system.py:51-53 | The names left after `remove_item` keep their relative iteration order. |
| InventorySystem.RemoveUndoesAdd | inventory_system.py:51-53 | `remove_item(name, n)` undoes `add_item(name, n)` exactly, iteration order included, when the name was absent or held a positive quantity. |
| InventorySystem.AddUndoesRemove | inventory_system.py:34 | `add_item(name, n)` undoes `remove_item(name, n)` exactly when the removal left the entry in place. |
| InventorySystem.LowItemsMembers | inventory_system.py:103-105 | A name is in the low-items report exactly when it is a key whose quantity is strictly below the threshold. |
| InventorySystem.LowItemsInOrder | inventory_system.py:103-105 | The report lists its names in the dictionary's iteration order. |
| InventorySystem.LowItemsDistinct | inventory_system.py:103-105 | No name is reported twice. |
| InventorySystem.LowItemsUnique | inventory_system.py:102-106 | Any repeat-free list that keeps the key order and holds exactly the keys below the threshold is the report. Together with the three lemmas above, this pins the report down. |
| InventorySystem.Inventory.constructor | inventory_system.py:13 | The store starts empty. |
| InventorySystem.Inventory.AddItem | inventory_system.py:18-35 | On a rejected call: the matching warning, the store unchanged, and nothing appended to `logs`. On an accepted call: no warning, the store becomes `AddSpec` of the old store, and exactly one entry with `qty` and the name is appended to a caller-supplied `logs`. |
| InventorySystem.Inventory.RemoveItem | inventory_system.py:37-55 | On a rejected call: the matching warning and the store unchanged. On an accepted call: the store becomes `RemoveSpec` of the old store, with the non-existent-item warning exactly when the name was absent. |
| InventorySystem.Inventory.GetQty | inventory_system.py:57-65 | Returns the stored quantity of a present name and 0 for an absent one. It never fails and reads the store without changing it. |
| InventorySystem.Inventory.CheckLowItems | inventory_system.py:94-106 | The loop's result is `LowItems` of the store. It holds exactly the names below the threshold, each once, in iteration order. The method changes nothing. |
| InventorySystem.MainAdds | inventory_system.py:112-114 | From an empty store, `apple` gets 10 and `banana` keeps its negative -2, after `apple` in order. `add_item(123, "ten")` is rejected for its name. |
| InventorySystem.MainRemoves | inventory_system.py:115-116 | Removing 3 apples leaves 7 in place. Removing the absent `orange` changes nothing. |
| InventorySystem.MainQueries | inventory_system.py:117-118 | Afterwards `get_qty("apple")` is 7, and `check_low_items()` with the default threshold 5 reports only `banana`. |
| OrderedDict.Dict.Set | inventory_system.py:34 | `d[k] = v` maps `k` to `v` and leaves every other entry as it was. Every key stays listed once: an existing key keeps its place and a new key is appended. |
| OrderedDict.Dict.Delete | inventory_system.py:53 | `del d[k]` takes out exactly `k` and keeps every remaining key listed once. |
| OrderedDict.Dict.DeleteKeepsOrder | inventory_system.py:53 | `del d[k]` leaves the other keys in their order. |
| OrderedDict.Dict.DeleteUndoesSetOfNewKey | inventory_system.py:53 | Deleting a key that was new when it was set gives back the dictionary as it was before the set, order included. |

## Left out

- `load_data` and `save_data` (inventory_system.py:67-84) are left out: they are file I/O through the `json` library. `load_data` also replaces the store with untyped JSON values.
- `print_data` (inventory_system.py:86-92) is left out: it only writes to stdout.
- The `logging.basicConfig` setup and the text of the warnings (inventory_system.py:16, 27, 30, 45, 48, 55) are left out. Which warning a call logs is modelled as the method's result.
- The text of a log entry, including its `datetime.now()` timestamp (inventory_system.py:35), is left out because it depends on the clock. An entry records the quantity argument and the item name.
- When `logs` is `None`, `add_item` appends to a fresh list that no caller can see. The model passes `null` and appends nothing.
- `main` (inventory_system.py:108-121) is a demo driver. Its calls up to line 118 are the `Main*` lemmas, stated on the specification functions. Its printing, saving, loading and report are left out.
- Inventory.GetQty: takes a `string`. The model does not cover a non-`str` argument, which would return 0 for a hashable key and raise `TypeError` for an unhashable one.
- Inventory.CheckLowItems: takes an `int` threshold. Other comparable thresholds, such as a float, are not modelled.
- Subclasses of `str` and `int` other than `bool`, and a caller-supplied `logs` object that is not a list, are not modelled.
- The model has no default arguments. `main`'s `check_low_items()` (inventory_system.py:118) is stated with the threshold 5 passed explicitly, and `main`'s `add_item` calls without `logs` pass `null`. A call `add_item()` with no arguments is the call with `Str("default")` and `Int(0)`.
