# Employee registry — Dafny model

This project models `EmployeeService`, the in-memory employee registry behind the
`/employee` HTTP endpoints. The registry keeps a map from a key to an `Employee`. The key
is the first name followed directly by the last name. The registry has a capacity
constant of 3. It offers four operations: `addEmployee`, `deleteEmployee`,
`findEmployee` and `getAll`, plus the key builder `makeKey`.

Layout:

- `model.dfy` (module `Model`) holds `Employee`, a value with two names. It also holds
  `EmployeeError`, with one constructor per exception (`StorageIsFull`, `AlreadyAdded`,
  `NotFound`), and `Result`, which models "returns a value or throws".
- `service.dfy` (module `Service`) holds the capacity constant and `MakeKey`. It gives the
  meaning of each operation on a map value (`AddStep`, `DeleteStep`, `FindResult`,
  `Values`). It also holds the class `EmployeeService`, whose field `employeeMap` is
  reassigned by `AddEmployee` and `DeleteEmployee` as the Java field is changed by `put`
  and `remove`. Each method's contract ties its result and new state to the step function
  and spells out every case. The class invariant `Valid()` says two things: every
  employee is stored under the key made from its own names, and there are at most 4 entries.
- `properties.dfy` (module `Properties`) holds the lemmas that relate several calls (add
  then find, add then delete, how add and delete change what `getAll` returns), the
  key lemmas, the proof that any sequence of calls from an empty registry keeps the
  invariant, and concrete scenarios. Each operation's own case split is stated on its
  step function in `service.dfy`. This file also exhibits three behaviours of the code,
  kept as written.

The three behaviours that are kept, not fixed:

- **Capacity boundary.** The full-storage test is `size > 3`, made before the insert.
  So four employees fit and the fifth is refused (`FourFitFifthRefused`).
- **Key collisions.** The key has no separator, so ("Ann", "aBanner") and
  ("Anna", "Banner") share a key. After the first pair is added, looking up the second
  pair returns the first employee, and adding the second pair fails with `AlreadyAdded`
  (`CollisionScenario`, `KeyCollides`).
- **Value-conditional removal.** `deleteEmployee` calls `Map.remove(key, value)` with a
  freshly built employee. It removes nothing when the stored employee has other names
  (a collision). It still returns the freshly built employee (`DeleteStep`,
  `CollisionScenario`). In a well-keyed map this only happens for name pairs that split
  the key at different places (`DeleteSkippedOnlyOnCollision`).

The Java `Employee` class is not part of this model. It is assumed to compare by value
(both names equal), which is what a Dafny datatype does (`EmployeeEquality`). The
conditional removal depends on this assumption. If `Employee` used identity equality,
the removal would never happen.

## Model

| member | source | states |
|---|---|---|
| `Service.MakeKey` | src/main/java/Skypro/Project_Of_Employee_JavaCore/service/EmployeeService.java:96-98 | the key is the first name followed by the last name with no separator: its length is the sum and it splits back into the two names at the first name's length |
| `Service.RemoveMapping` | src/main/java/Skypro/Project_Of_Employee_JavaCore/service/EmployeeService.java:59 | `Map.remove(key, value)`: the result is a sub-map of the input that can lack only `key`, and it lacks `key` exactly when `key` was mapped to a value equal to `value` |
| `Service.AddStep` | src/main/java/Skypro/Project_Of_Employee_JavaCore/service/EmployeeService.java:33-44 | addEmployee on a map value: StorageIsFull exactly when more than 3 entries are held, whether or not the key is present; AlreadyAdded exactly when there is room and the key is present; success exactly when there is room and the key is new; every failure leaves the map unchanged; a success returns `Employee(f, l)`, stores it under `f + l` and grows the map by one |
| `Service.DeleteStep` | src/main/java/Skypro/Project_Of_Employee_JavaCore/service/EmployeeService.java:53-61 | deleteEmployee on a map value: NotFound exactly when the key is absent, with the map unchanged; otherwise returns `Employee(f, l)`; the key disappears exactly when the stored employee equals it; every other key keeps its presence and its employee |
| `Service.FindResult` | src/main/java/Skypro/Project_Of_Employee_JavaCore/service/EmployeeService.java:70-77 | findEmployee on a map value: NotFound exactly when the key is absent; otherwise the employee stored under the key, whose own key (in a well-keyed map) equals `f + l` although its names may differ |
| `Service.Values` | src/main/java/Skypro/Project_Of_Employee_JavaCore/service/EmployeeService.java:85-87 | getAll on a well-keyed map value: one element per entry, every stored employee exactly once, nothing else |
| `Service.ValuesCardinality` | src/main/java/Skypro/Project_Of_Employee_JavaCore/service/EmployeeService.java:85-86 | in a map where every employee sits under its own key, the distinct stored employees are as many as the entries |
| `Service.EmployeeService.constructor` | src/main/java/Skypro/Project_Of_Employee_JavaCore/service/EmployeeService.java:24 | a new registry is empty and satisfies the invariant |
| `Service.EmployeeService.AddEmployee` | src/main/java/Skypro/Project_Of_Employee_JavaCore/service/EmployeeService.java:33-44 | StorageIsFull exactly when more than 3 entries are held; otherwise AlreadyAdded exactly when the key is present; the map is unchanged on either error; on success it returns `Employee(f, l)`, the map becomes the old map with that employee under `f + l`, and the size grows by one; the invariant is kept |
| `Service.EmployeeService.DeleteEmployee` | src/main/java/Skypro/Project_Of_Employee_JavaCore/service/EmployeeService.java:53-61 | NotFound exactly when the key is absent, with the map unchanged; otherwise it returns `Employee(f, l)`; the entry is removed when the stored employee equals it, and the map is left unchanged when they differ; the invariant is kept |
| `Service.EmployeeService.FindEmployee` | src/main/java/Skypro/Project_Of_Employee_JavaCore/service/EmployeeService.java:70-77 | changes nothing; NotFound exactly when the key is absent; otherwise the stored employee under the key, whose own key equals `f + l` |
| `Service.EmployeeService.GetAll` | src/main/java/Skypro/Project_Of_Employee_JavaCore/service/EmployeeService.java:85-87 | changes nothing; returns a collection with one element per entry: every stored employee occurs exactly once, and nothing else occurs |
| `Properties.AddCapacityBeforeDuplicate` | src/main/java/Skypro/Project_Of_Employee_JavaCore/service/EmployeeService.java:34-41 | a full registry reports StorageIsFull even when the key is also present |
| `Properties.AddThenFind` | src/main/java/Skypro/Project_Of_Employee_JavaCore/service/EmployeeService.java:37-43 | after a successful add, finding the same names returns the added employee |
| `Properties.AddThenDelete` | src/main/java/Skypro/Project_Of_Employee_JavaCore/service/EmployeeService.java:37-60 | a successful add followed by a delete of the same names returns that employee and restores the original map |
| `Properties.AddGrowsValues` | src/main/java/Skypro/Project_Of_Employee_JavaCore/service/EmployeeService.java:42 | in a well-keyed map, a successful add adds exactly the new employee to the collection `getAll` returns |
| `Properties.DeleteShrinks` | src/main/java/Skypro/Project_Of_Employee_JavaCore/service/EmployeeService.java:59 | when the stored employee matches, the entry is removed and the size drops by one |
| `Properties.DeleteShrinksValues` | src/main/java/Skypro/Project_Of_Employee_JavaCore/service/EmployeeService.java:59 | in a well-keyed map, a removal takes exactly that employee out of the collection `getAll` returns |
| `Properties.DeleteSkippedOnlyOnCollision` | src/main/java/Skypro/Project_Of_Employee_JavaCore/service/EmployeeService.java:55-59 | in a well-keyed map the removal happens whenever the stored employee's first name is as long as the given one; it can only be skipped on a collision |
| `Properties.DeleteThenFind` | src/main/java/Skypro/Project_Of_Employee_JavaCore/service/EmployeeService.java:59 | after a removal, finding the same names reports NotFound |
| `Properties.KeySplitsUniquely` | src/main/java/Skypro/Project_Of_Employee_JavaCore/service/EmployeeService.java:96-98 | two name pairs with the same key and equally long first names are the same pair |
| `Properties.KeyCollides` | src/main/java/Skypro/Project_Of_Employee_JavaCore/service/EmployeeService.java:96-98 | moving a character from the first name to the last name keeps the key while changing the employee, so distinct employees share keys |
| `Properties.EmployeeEquality` | src/main/java/Skypro/Project_Of_Employee_JavaCore/service/EmployeeService.java:54-59 | the modelling assumption the conditional removal relies on: employees are equal exactly when both names are equal |
| `Properties.AddPreservesInvariant` | src/main/java/Skypro/Project_Of_Employee_JavaCore/service/EmployeeService.java:33-44 | an add keeps every employee under its own key and keeps at most 4 entries |
| `Properties.DeletePreservesInvariant` | src/main/java/Skypro/Project_Of_Employee_JavaCore/service/EmployeeService.java:53-61 | a delete keeps the same invariant |
| `Properties.RunPreservesInvariant` | src/main/java/Skypro/Project_Of_Employee_JavaCore/service/EmployeeService.java:33-87 | any sequence of add, delete, find and getAll calls keeps the invariant |
| `Properties.Bounded` | src/main/java/Skypro/Project_Of_Employee_JavaCore/service/EmployeeService.java:20-36 | starting from an empty registry, every sequence of calls leaves at most MAX + 1 = 4 entries, each under its own key |
| `Properties.FourFitFifthRefused` | src/main/java/Skypro/Project_Of_Employee_JavaCore/service/EmployeeService.java:20-43 | the bound is reached: four distinct adds from empty all succeed, and a fifth is refused with StorageIsFull |
| `Properties.CollisionScenario` | src/main/java/Skypro/Project_Of_Employee_JavaCore/service/EmployeeService.java:38-77 | with ("Ann", "aBanner") stored, ("Anna", "Banner") is found as the stored employee and cannot be added; deleting it returns ("Anna", "Banner") and removes nothing |
| `Properties.AddFindDeleteScenario` | src/main/java/Skypro/Project_Of_Employee_JavaCore/service/EmployeeService.java:33-77 | add ("Ivan", "Petrov") succeeds; adding it again gives AlreadyAdded; find returns it; delete returns it; a later find gives NotFound |

## Left out

- `EmployeeController`: HTTP routing that only forwards the two query parameters to the service. It is not modelled.
- The exception classes' messages and their HTTP status codes (400 and 404) are not modelled. Each exception is an `EmployeeError` constructor.
- `EmployeeStorageIsFullException` (imported at EmployeeService.java:5) is modelled only as the `StorageIsFull` error; its message is not modelled.
- The `model.Employee` class is not part of this model. It is modelled as a two-field datatype with structural equality, as stated above.
- Names are Dafny strings, sequences of Unicode scalar values, while Java strings are sequences of UTF-16 code units. The lengths in `MakeKey`, `KeySplitsUniquely` and `DeleteSkippedOnlyOnCollision` count code points where Java's `length()` counts code units, and unpaired surrogates cannot be represented. Concatenation and equality agree on well-formed strings, so no registry behaviour is lost.
- Null arguments are not modelled. The source documents that names may not be null, and Dafny strings are never null.
- `GetAll` returns a multiset snapshot, not the unmodifiable live view of `Collections.unmodifiableCollection`. Later changes to the registry are not reflected in an earlier snapshot. HashMap iteration order is unspecified, so no order is promised.
- Thread safety and the Spring singleton lifecycle are not modelled. Each call is treated as atomic on one registry.
- `findEmployee` builds an `Employee` value it never uses. The model leaves it out, since it has no effect.
