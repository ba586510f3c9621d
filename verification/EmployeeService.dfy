// The event bus and the service that publishes on it, as they run.
module EmployeeService {
  import opened Wrappers

  class Employee {
    const id: string
    var name: string
    var salary: int

    constructor (id: string, name: string, salary: int)
      ensures this.id == id && this.name == name && this.salary == salary
    {
      this.id, this.name, this.salary := id, name, salary;
    }
  }

  /** A channel with one slot. */
  class Channel {
    var slot: seq<Employee>
    var closed: bool

    constructor ()
      ensures slot == [] && !closed
    {
      slot, closed := [], false;
    }

    /** A send that does not wait. Sending on a closed channel would panic. */
    method TrySend(employee: Employee)
      requires !closed
      modifies `slot
      ensures slot == if old(slot) == [] then [employee] else old(slot)
    {
      if |slot| == 0 {
        slot := [employee];
      }
    }

    /** Closing a closed channel would panic. */
    method Close()
      requires !closed
      modifies `closed
      ensures closed
    {
      closed := true;
    }
  }

  class EventBus {
    var subscribers: map<nat, Channel>
    var nextID: nat

    /** The map holds open channels, a different one for each id handed out. */
    ghost predicate Valid()
      reads this, subscribers.Values
    {
      && (forall id <- subscribers :: id <= nextID && !subscribers[id].closed)
      && (forall i, j | i in subscribers && j in subscribers && subscribers[i] == subscribers[j] :: i == j)
    }

    constructor ()
      ensures Valid() && subscribers == map[] && nextID == 0
    {
      subscribers, nextID := map[], 0;
    }

    method Subscribe() returns (id: nat, ch: Channel)
      requires Valid()
      modifies this
      ensures Valid() && id == nextID == old(nextID) + 1
      ensures fresh(ch) && ch.slot == [] && id !in old(subscribers) && subscribers == old(subscribers)[id := ch]
    {
      nextID := nextID + 1;
      id := nextID;
      ch := new Channel();
      subscribers := subscribers[id := ch];
    }

    method Unsubscribe(id: nat)
      requires Valid()
      modifies this, subscribers.Values
      ensures Valid() && nextID == old(nextID) && subscribers == old(subscribers) - {id}
      ensures id in old(subscribers) ==> old(subscribers)[id].closed
      ensures forall i <- old(subscribers) ::
        old(subscribers)[i].slot == old(subscribers[i].slot) && (i != id ==> !old(subscribers)[i].closed)
    {
      if id in subscribers {
        var ch := subscribers[id];
        subscribers := subscribers - {id};
        ch.Close();
      }
    }

    /** Every subscriber whose slot is free gets the employee; the others do without. */
    method Publish(employee: Employee)
      requires Valid()
      modifies subscribers.Values
      ensures Valid()
      ensures forall id <- subscribers ::
        subscribers[id].slot == if old(subscribers[id].slot) == [] then [employee] else old(subscribers[id].slot)
    {
      var left := subscribers.Keys;
      while left != {}
        invariant left <= subscribers.Keys && Valid()
        invariant forall id <- subscribers ::
          subscribers[id].slot == if id !in left && old(subscribers[id].slot) == [] then [employee]
                                  else old(subscribers[id].slot)
        decreases |left|
      {
        var id :| id in left;
        subscribers[id].TrySend(employee);
        left := left - {id};
      }
    }
  }

  datatype Result = Ok(employee: Employee) | NotFound(id: string)

  class Resolver {
    var employees: map<string, Employee>
    const eventBus: EventBus

    constructor (employees: map<string, Employee>, eventBus: EventBus)
      ensures this.employees == employees && this.eventBus == eventBus
    {
      this.employees, this.eventBus := employees, eventBus;
    }

    /** Employees are kept under their ids. */
    ghost predicate Valid()
      reads this
    {
      forall id <- employees :: employees[id].id == id
    }

    /** The employee is changed where it is, so that whoever has it sees the change, and then published. */
    method UpdateEmployee(id: string, name: Option<string>, salary: Option<int>) returns (r: Result)
      requires Valid() && eventBus.Valid()
      modifies employees.Values, eventBus.subscribers.Values
      ensures eventBus.Valid()
      ensures id !in employees
        ==> r == NotFound(id) && unchanged(employees.Values) && unchanged(eventBus.subscribers.Values)
      ensures id in employees ==>
        var e := employees[id];
        && r == Ok(e)
        && e.name == (if name.Some? then name.value else old(e.name))
        && e.salary == (if salary.Some? then salary.value else old(e.salary))
        && forall i <- eventBus.subscribers ::
             eventBus.subscribers[i].slot
             == if old(eventBus.subscribers[i].slot) == [] then [e] else old(eventBus.subscribers[i].slot)
      ensures forall i <- employees ::
        i != id ==> employees[i].name == old(employees[i].name) && employees[i].salary == old(employees[i].salary)
    {
      if id !in employees {
        return NotFound(id);
      }
      var employee := employees[id];
      if name.Some? {
        employee.name := name.value;
      }
      if salary.Some? {
        employee.salary := salary.value;
      }
      eventBus.Publish(employee);
      r := Ok(employee);
    }
  }
}
