/** Properties of the registry operations: what each call does, the invariant every
    sequence of calls keeps, and the three behaviours of the code kept as written
    (the capacity boundary, key collisions, and the value-conditional removal). */
module Properties {
  import opened Model
  import opened Service

  // ---------------------------------------------------------------- addEmployee

  /** The capacity test comes first: a full registry reports StorageIsFull even when
      the key is also present. */
  lemma AddCapacityBeforeDuplicate(m: map<string, Employee>, firstName: string, lastName: string)
    requires |m| > MaxCountEmployees && MakeKey(firstName, lastName) in m
    ensures AddStep(m, firstName, lastName).result == Err(StorageIsFull)
  {
  }

  /** An added employee can be found again under the same names. */
  lemma AddThenFind(m: map<string, Employee>, firstName: string, lastName: string)
    requires AddStep(m, firstName, lastName).result.Ok?
    ensures FindResult(AddStep(m, firstName, lastName).registry, firstName, lastName)
            == Ok(Employee(firstName, lastName))
  {
  }

  /** Deleting what was just added under the same names restores the registry. */
  lemma AddThenDelete(m: map<string, Employee>, firstName: string, lastName: string)
    requires AddStep(m, firstName, lastName).result.Ok?
    ensures DeleteStep(AddStep(m, firstName, lastName).registry, firstName, lastName)
            == Step(Ok(Employee(firstName, lastName)), m)
  {
  }

  /** A successful add on a well-keyed map adds exactly one employee to the collection
      getAll returns. */
  lemma AddGrowsValues(m: map<string, Employee>, firstName: string, lastName: string)
    requires WellKeyed(m)
    requires AddStep(m, firstName, lastName).result.Ok?
    ensures Values(AddStep(m, firstName, lastName).registry) == Values(m) + multiset{Employee(firstName, lastName)}
  {
    var e := Employee(firstName, lastName);
    var key := MakeKey(firstName, lastName);
    InsertValues(m, key, e);
    assert AddStep(m, firstName, lastName).registry == m[key := e];
  }

  /** Inserting under a fresh key adds the value to the set of values. */
  lemma InsertValues(m: map<string, Employee>, key: string, e: Employee)
    requires WellKeyed(m) && key == MakeKey(e.firstName, e.lastName) && key !in m
    ensures Values(m[key := e]) == Values(m) + multiset{e}
  {
    var after := m[key := e];
    assert after.Values == m.Values + {e} by {
      forall v | v in after.Values ensures v in m.Values + {e} {
        var j :| j in after && after[j] == v;
        if j != key { assert m[j] == v; }
      }
      forall v | v in m.Values ensures v in after.Values {
        var j :| j in m && m[j] == v;
        assert j != key && after[j] == v;
      }
      assert after[key] == e;
    }
    assert multiset(m.Values + {e}) == multiset(m.Values) + multiset{e};
  }

  // ---------------------------------------------------------------- deleteEmployee

  /** When the removal happens, the map shrinks by exactly one. */
  lemma DeleteShrinks(m: map<string, Employee>, firstName: string, lastName: string)
    requires MakeKey(firstName, lastName) in m && m[MakeKey(firstName, lastName)] == Employee(firstName, lastName)
    ensures DeleteStep(m, firstName, lastName).registry == m - {MakeKey(firstName, lastName)}
    ensures |DeleteStep(m, firstName, lastName).registry| == |m| - 1
  {
  }

  /** A removal on a well-keyed map takes exactly that one employee out of the
      collection getAll returns. */
  lemma DeleteShrinksValues(m: map<string, Employee>, firstName: string, lastName: string)
    requires WellKeyed(m)
    requires MakeKey(firstName, lastName) in m && m[MakeKey(firstName, lastName)] == Employee(firstName, lastName)
    ensures Values(DeleteStep(m, firstName, lastName).registry) == Values(m) - multiset{Employee(firstName, lastName)}
  {
  }

  /** In a well-keyed map, a stored employee whose first name is as long as the given
      one is the given employee: the removal can only be skipped for a collision between
      name pairs that split the key at different places. */
  lemma DeleteSkippedOnlyOnCollision(m: map<string, Employee>, firstName: string, lastName: string)
    requires WellKeyed(m) && MakeKey(firstName, lastName) in m
    requires |m[MakeKey(firstName, lastName)].firstName| == |firstName|
    ensures DeleteStep(m, firstName, lastName).registry == m - {MakeKey(firstName, lastName)}
  {
  }

  /** After a removal the names are no longer found. */
  lemma DeleteThenFind(m: map<string, Employee>, firstName: string, lastName: string)
    requires MakeKey(firstName, lastName) in m && m[MakeKey(firstName, lastName)] == Employee(firstName, lastName)
    ensures FindResult(DeleteStep(m, firstName, lastName).registry, firstName, lastName) == Err(NotFound)
  {
  }

  // ---------------------------------------------------------------- makeKey

  /** Once the length of the first name is fixed, the key determines both names. */
  lemma KeySplitsUniquely(f1: string, l1: string, f2: string, l2: string)
    requires |f1| == |f2| && MakeKey(f1, l1) == MakeKey(f2, l2)
    ensures f1 == f2 && l1 == l2
  {
  }

  /** Moving a character across the boundary keeps the key: distinct name pairs collide. */
  lemma KeyCollides(firstName: string, c: char, lastName: string)
    ensures MakeKey(firstName + [c], lastName) == MakeKey(firstName, [c] + lastName)
    ensures Employee(firstName + [c], lastName) != Employee(firstName, [c] + lastName)
  {
  }

  /** Employees are compared by value: equal exactly when both names are equal. */
  lemma EmployeeEquality(a: Employee, b: Employee)
    ensures a == b <==> a.firstName == b.firstName && a.lastName == b.lastName
  {
  }

  // ---------------------------------------------------------------- the invariant

  lemma AddPreservesInvariant(m: map<string, Employee>, firstName: string, lastName: string)
    requires Invariant(m)
    ensures Invariant(AddStep(m, firstName, lastName).registry)
  {
  }

  lemma DeletePreservesInvariant(m: map<string, Employee>, firstName: string, lastName: string)
    requires Invariant(m)
    ensures Invariant(DeleteStep(m, firstName, lastName).registry)
  {
  }

  /** One call on the registry, as the controller issues them. */
  datatype Call =
    | Add(firstName: string, lastName: string)
    | Delete(firstName: string, lastName: string)
    | Find(firstName: string, lastName: string)
    | GetAll

  function Apply(m: map<string, Employee>, call: Call): map<string, Employee>
  {
    match call
    case Add(f, l) => AddStep(m, f, l).registry
    case Delete(f, l) => DeleteStep(m, f, l).registry
    case Find(_, _) => m
    case GetAll => m
  }

  /** The registry after a sequence of calls, each applied to the result of the previous one. */
  function Run(m: map<string, Employee>, calls: seq<Call>): map<string, Employee>
    decreases |calls|
  {
    if calls == [] then m else Run(Apply(m, calls[0]), calls[1..])
  }

  lemma {:induction false} RunPreservesInvariant(m: map<string, Employee>, calls: seq<Call>)
    requires Invariant(m)
    ensures Invariant(Run(m, calls))
    decreases |calls|
  {
    if calls != [] {
      match calls[0] {
        case Add(f, l) => AddPreservesInvariant(m, f, l);
        case Delete(f, l) => DeletePreservesInvariant(m, f, l);
        case Find(_, _) =>
        case GetAll =>
      }
      RunPreservesInvariant(Apply(m, calls[0]), calls[1..]);
    }
  }

  /** From an empty registry, any sequence of calls leaves at most MaxCountEmployees + 1
      entries, each stored under its own key. */
  lemma Bounded(calls: seq<Call>)
    ensures |Run(map[], calls)| <= MaxCountEmployees + 1
    ensures WellKeyed(Run(map[], calls))
  {
    RunPreservesInvariant(map[], calls);
  }

  // ---------------------------------------------------------------- scenarios

  /** The boundary is off by one: four employees fit, the fifth is refused. */
  lemma FourFitFifthRefused()
    ensures var m := Run(map[], [Add("A", ""), Add("B", ""), Add("C", ""), Add("D", "")]);
            |m| == 4 && AddStep(m, "E", "").result == Err(StorageIsFull)
  {
  }

  /** ("Ann", "aBanner") and ("Anna", "Banner") share a key: once one is stored the other
      is found as it, cannot be added, and deleting it removes nothing. */
  lemma CollisionScenario()
    ensures var m := AddStep(map[], "Ann", "aBanner").registry;
            && FindResult(m, "Anna", "Banner") == Ok(Employee("Ann", "aBanner"))
            && AddStep(m, "Anna", "Banner").result == Err(AlreadyAdded)
            && DeleteStep(m, "Anna", "Banner") == Step(Ok(Employee("Anna", "Banner")), m)
  {
    assert MakeKey("Ann", "aBanner") == MakeKey("Anna", "Banner");
  }

  /** add, add again, find, delete, find for one employee. */
  lemma AddFindDeleteScenario()
    ensures var s1 := AddStep(map[], "Ivan", "Petrov");
            var s2 := AddStep(s1.registry, "Ivan", "Petrov");
            var s3 := DeleteStep(s2.registry, "Ivan", "Petrov");
            && s1.result == Ok(Employee("Ivan", "Petrov"))
            && s2.result == Err(AlreadyAdded)
            && FindResult(s2.registry, "Ivan", "Petrov") == Ok(Employee("Ivan", "Petrov"))
            && s3.result == Ok(Employee("Ivan", "Petrov"))
            && FindResult(s3.registry, "Ivan", "Petrov") == Err(NotFound)
  {
  }
}
