/** The in-memory employee registry: a map from a name-derived key to the employee,
    with a fixed capacity. The pure step functions give the meaning of each operation
    on a map value; the class holds the map as the mutable field the operations update. */
module Service {
  import opened Model

  /** MAX_COUNT_EMPLOYEES. The capacity test is `size > MaxCountEmployees` before an
      insert, so the registry can reach MaxCountEmployees + 1 entries. */
  const MaxCountEmployees: nat := 3

  /** The key of an employee: the first name immediately followed by the last name,
      with no separator. */
  function MakeKey(firstName: string, lastName: string): (key: string)
    ensures |key| == |firstName| + |lastName|
    ensures key[..|firstName|] == firstName
    ensures key[|firstName|..] == lastName
  {
    firstName + lastName
  }

  /** Every employee is stored under the key made from its own names. */
  ghost predicate WellKeyed(m: map<string, Employee>)
  {
    forall k :: k in m ==> MakeKey(m[k].firstName, m[k].lastName) == k
  }

  /** What every reachable registry satisfies: well keyed and at most one entry
      beyond the nominal capacity. */
  ghost predicate Invariant(m: map<string, Employee>)
  {
    WellKeyed(m) && |m| <= MaxCountEmployees + 1
  }

  /** The registry after an operation, together with what the operation returned
      (the employee) or threw (the error). */
  datatype Step = Step(result: Result<Employee>, registry: map<string, Employee>)

  /** `java.util.Map.remove(key, value)`: the entry goes only when `key` is currently
      mapped to a value equal to `value`. */
  function RemoveMapping(m: map<string, Employee>, key: string, value: Employee): (m': map<string, Employee>)
    ensures m'.Keys <= m.Keys && m.Keys - m'.Keys <= {key}
    ensures forall k :: k in m' ==> m'[k] == m[k]
    ensures key in m' <==> key in m && m[key] != value
  {
    if key in m && m[key] == value then m - {key} else m
  }

  /** addEmployee on a map value: capacity first, then the duplicate key, then the insert.
      StorageIsFull exactly when more than MaxCountEmployees entries are held (whether or
      not the key is present); AlreadyAdded exactly when there is room and the key is
      present; every failure leaves the map as it was; a success returns the new employee,
      stored under its key, and grows the map by one. */
  function AddStep(m: map<string, Employee>, firstName: string, lastName: string): (s: Step)
    ensures s.result == Err(StorageIsFull) <==> |m| > MaxCountEmployees
    ensures s.result == Err(AlreadyAdded) <==> |m| <= MaxCountEmployees && MakeKey(firstName, lastName) in m
    ensures s.result.Ok? <==> |m| <= MaxCountEmployees && MakeKey(firstName, lastName) !in m
    ensures s.result.Err? ==> s.registry == m
    ensures s.result.Ok? ==> s.result.value == Employee(firstName, lastName)
    ensures s.result.Ok? ==> s.registry == m[MakeKey(firstName, lastName) := Employee(firstName, lastName)]
    ensures s.result.Ok? ==> |s.registry| == |m| + 1
  {
    var key := MakeKey(firstName, lastName);
    if |m| > MaxCountEmployees then Step(Err(StorageIsFull), m)
    else if key in m then Step(Err(AlreadyAdded), m)
    else Step(Ok(Employee(firstName, lastName)), m[key := Employee(firstName, lastName)])
  }

  /** deleteEmployee on a map value: NotFound exactly for an absent key, with the map
      unchanged; for a present key the freshly built employee is returned, the key goes
      exactly when the stored employee equals it, and every other entry stays. */
  function DeleteStep(m: map<string, Employee>, firstName: string, lastName: string): (s: Step)
    ensures s.result == Err(NotFound) <==> MakeKey(firstName, lastName) !in m
    ensures s.result.Ok? <==> MakeKey(firstName, lastName) in m
    ensures s.result.Err? ==> s.registry == m
    ensures s.result.Ok? ==> s.result.value == Employee(firstName, lastName)
    ensures s.result.Ok? ==>
              (MakeKey(firstName, lastName) !in s.registry <==> m[MakeKey(firstName, lastName)] == Employee(firstName, lastName))
    ensures forall k :: k != MakeKey(firstName, lastName) ==> (k in s.registry <==> k in m)
    ensures forall k :: k in s.registry ==> s.registry[k] == m[k]
  {
    var key := MakeKey(firstName, lastName);
    if key !in m then Step(Err(NotFound), m)
    else Step(Ok(Employee(firstName, lastName)), RemoveMapping(m, key, Employee(firstName, lastName)))
  }

  /** findEmployee on a map value: NotFound exactly for an absent key; otherwise the stored
      employee under the key, whatever its names. In a well-keyed map that employee has
      the same key as the given names. */
  function FindResult(m: map<string, Employee>, firstName: string, lastName: string): (r: Result<Employee>)
    ensures r == Err(NotFound) <==> MakeKey(firstName, lastName) !in m
    ensures MakeKey(firstName, lastName) in m ==> r == Ok(m[MakeKey(firstName, lastName)])
    ensures WellKeyed(m) && r.Ok? ==> MakeKey(r.value.firstName, r.value.lastName) == MakeKey(firstName, lastName)
  {
    var key := MakeKey(firstName, lastName);
    if key !in m then Err(NotFound) else Ok(m[key])
  }

  /** getAll on a map value: the stored employees as an unordered collection, one element
      per entry. Built from the set of values, it has one element per entry only because
      in a well-keyed map (every reachable registry is one) no two entries hold equal
      employees; hence the precondition. */
  function Values(m: map<string, Employee>): (all: multiset<Employee>)
    requires WellKeyed(m)
    ensures |all| == |m|
    ensures forall k :: k in m ==> all[m[k]] == 1
    ensures forall e :: e in all ==> exists k :: k in m && m[k] == e
  {
    ValuesCardinality(m);
    multiset(m.Values)
  }

  /** In a well-keyed map an employee determines its key, so no two entries hold
      equal employees and the values are as many as the entries. */
  lemma {:induction false} ValuesCardinality(m: map<string, Employee>)
    requires WellKeyed(m)
    ensures |m.Values| == |m|
    decreases |m|
  {
    if |m| > 0 {
      var k :| k in m;
      var rest := m - {k};
      assert rest.Keys == m.Keys - {k};
      assert rest.Values == m.Values - {m[k]} by {
        forall e | e in m.Values - {m[k]} ensures e in rest.Values {
          var j :| j in m && m[j] == e;
          assert j != k;
          assert rest[j] == e;
        }
      }
      ValuesCardinality(rest);
    } else {
      assert m == map[];
    }
  }

  class EmployeeService {
    /** The stored employees, each under the key made from its names. */
    var employeeMap: map<string, Employee>

    ghost predicate Valid()
      reads this
    {
      Invariant(employeeMap)
    }

    constructor ()
      ensures Valid() && employeeMap == map[]
    {
      employeeMap := map[];
    }

    /** addEmployee: refuses when more than MaxCountEmployees entries are held or the key is
        taken, otherwise stores and returns the new employee. */
    method AddEmployee(firstName: string, lastName: string) returns (r: Result<Employee>)
      requires Valid()
      modifies this
      ensures Valid()
      ensures Step(r, employeeMap) == AddStep(old(employeeMap), firstName, lastName)
      ensures r == Err(StorageIsFull) <==> |old(employeeMap)| > MaxCountEmployees
      ensures r == Err(AlreadyAdded) <==>
                |old(employeeMap)| <= MaxCountEmployees && MakeKey(firstName, lastName) in old(employeeMap)
      ensures r.Err? ==> employeeMap == old(employeeMap)
      ensures r.Ok? ==> r.value == Employee(firstName, lastName)
      ensures r.Ok? ==> employeeMap == old(employeeMap)[MakeKey(firstName, lastName) := r.value]
      ensures r.Ok? ==> |employeeMap| == |old(employeeMap)| + 1
    {
      if |employeeMap| > MaxCountEmployees {
        return Err(StorageIsFull);
      }
      var addedEmployee := Employee(firstName, lastName);
      var key := MakeKey(firstName, lastName);
      if key in employeeMap {
        return Err(AlreadyAdded);
      }
      employeeMap := employeeMap[key := addedEmployee];
      return Ok(addedEmployee);
    }

    /** deleteEmployee: NotFound for an absent key; otherwise removes the entry if it holds
        an equal employee, and returns the freshly built employee either way. */
    method DeleteEmployee(firstName: string, lastName: string) returns (r: Result<Employee>)
      requires Valid()
      modifies this
      ensures Valid()
      ensures Step(r, employeeMap) == DeleteStep(old(employeeMap), firstName, lastName)
      ensures r.Err? <==> MakeKey(firstName, lastName) !in old(employeeMap)
      ensures r.Err? ==> r.error == NotFound && employeeMap == old(employeeMap)
      ensures r.Ok? ==> r.value == Employee(firstName, lastName)
      ensures r.Ok? && old(employeeMap)[MakeKey(firstName, lastName)] == r.value ==>
                employeeMap == old(employeeMap) - {MakeKey(firstName, lastName)}
      ensures r.Ok? && old(employeeMap)[MakeKey(firstName, lastName)] != r.value ==>
                employeeMap == old(employeeMap)
    {
      var removedEmployee := Employee(firstName, lastName);
      var key := MakeKey(firstName, lastName);
      if key !in employeeMap {
        return Err(NotFound);
      }
      // Map.remove(key, value): a no-op unless the stored employee equals removedEmployee
      if employeeMap[key] == removedEmployee {
        employeeMap := employeeMap - {key};
      }
      return Ok(removedEmployee);
    }

    /** findEmployee (reads the map, changes nothing) */
    method FindEmployee(firstName: string, lastName: string) returns (r: Result<Employee>)
      requires Valid()
      ensures r == FindResult(employeeMap, firstName, lastName)
      ensures r.Err? <==> MakeKey(firstName, lastName) !in employeeMap
      ensures r.Err? ==> r.error == NotFound
      ensures r.Ok? ==> r.value == employeeMap[MakeKey(firstName, lastName)]
      ensures r.Ok? ==> MakeKey(r.value.firstName, r.value.lastName) == MakeKey(firstName, lastName)
    {
      var key := MakeKey(firstName, lastName);
      if key !in employeeMap {
        return Err(NotFound);
      } else {
        return Ok(employeeMap[key]);
      }
    }

    /** getAll: a snapshot of the stored employees, in no particular order */
    method GetAll() returns (all: multiset<Employee>)
      requires Valid()
      ensures all == Values(employeeMap)
      ensures |all| == |employeeMap|
      ensures forall k :: k in employeeMap ==> all[employeeMap[k]] == 1
      ensures forall e :: e in all ==> exists k :: k in employeeMap && employeeMap[k] == e
    {
      all := Values(employeeMap);
    }
  }
}
