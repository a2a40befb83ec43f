/** `deletetask NAME g/GROUP task/TASK`: removes one task from a group of the
    first person with the given name, dropping the group once it has no task. */
module DeleteTask {
  import opened Sequences
  import opened AddressBook
  import opened Commands

  /** The assignments after one `task` is taken out of `group`'s list: the
      shortened list is stored back, or the group is dropped when it is empty. */
  function RemoveTask(assignments: map<string, seq<string>>, group: string, task: string)
    : (r: map<string, seq<string>>)
    requires group in assignments
    ensures group in r <==> RemoveFirst(assignments[group], task) != []
    ensures group in r ==> r[group] == RemoveFirst(assignments[group], task)
    ensures forall g :: g != group ==> (g in r <==> g in assignments)
    ensures forall g :: g != group && g in r ==> r[g] == assignments[g]
  {
    var list := RemoveFirst(assignments[group], task);
    if |list| != 0 then assignments[group := list] else assignments - {group}
  }

  /** What executing `cmd` reports and the master list it leaves, given the
      identity relation between persons and the model's duplicate test. The
      first person with the name is edited; its own map is changed before the
      duplicate check, so a duplicate failure keeps the edit. */
  function Run(
    persons: seq<Person>, cmd: DeleteTaskCommand,
    isSamePerson: (Person, Person) -> bool, hasPerson: (seq<Person>, Person) -> bool)
    : (s: Step<Outcome>)
    ensures |s.persons| == |persons|
    ensures forall i :: 0 <= i < |persons| && persons[i].name != cmd.name ==> s.persons[i] == persons[i]
  {
    match IndexWhere(persons, HasName(cmd.name))
    case None => Step(Failure(InvalidPerson), persons)
    case Some(k) =>
      var assignments := persons[k].assignments;
      if cmd.group !in assignments then Step(Failure(GroupNotFound), persons)
      else if cmd.task !in assignments[cmd.group] then Step(Failure(AssignmentNotFound), persons)
      else
        var changed := persons[k].(assignments := RemoveTask(assignments, cmd.group, cmd.task));
        var edited := Person(changed.name, changed.phone, changed.email, changed.address,
                             changed.tags, changed.assignments);
        var current := persons[k := changed];
        if !isSamePerson(changed, edited) && hasPerson(current, edited) then
          Step(Failure(DuplicatePerson), current)
        else
          Step(Success(TaskDeleted(cmd.name, cmd.group, cmd.task)), current)
  }

  /** The command, run against the model in place. */
  method Execute(
    cmd: DeleteTaskCommand, model: AddressModel,
    isSamePerson: (Person, Person) -> bool, hasPerson: (seq<Person>, Person) -> bool)
    returns (r: Outcome)
    modifies model
    ensures Step(r, model.persons) == Run(old(model.persons), cmd, isSamePerson, hasPerson)
    ensures model.filter == if r.Success? then ShowAll else old(model.filter)
  {
    var personList := model.GetPersonWithName(cmd.name);
    if |personList| == 0 {
      return Failure(InvalidPerson);
    }
    var personToDeleteTask := personList[0];
    ghost var k := IndexWhere(model.persons, HasName(cmd.name)).value;
    var assignments := personToDeleteTask.assignments;
    if cmd.group !in assignments {
      return Failure(GroupNotFound);
    }
    var listOfAssignment := assignments[cmd.group];
    if cmd.task !in listOfAssignment {
      return Failure(AssignmentNotFound);
    }
    listOfAssignment := RemoveFirst(listOfAssignment, cmd.task);
    if |listOfAssignment| != 0 {
      assignments := assignments[cmd.group := listOfAssignment];
    } else {
      assignments := assignments - {cmd.group};
    }
    // The map just changed is the one the model's own person holds: the model
    // sees the change at once, before any further check.
    FirstOfNameIsFirstEqual(model.persons, cmd.name, k);
    var at := IndexWhere(model.persons, EqualTo(personToDeleteTask)).value;
    personToDeleteTask := personToDeleteTask.(assignments := assignments);
    model.persons := model.persons[at := personToDeleteTask];
    var editedPerson := Person(
      personToDeleteTask.name, personToDeleteTask.phone, personToDeleteTask.email,
      personToDeleteTask.address, personToDeleteTask.tags, assignments);
    if !isSamePerson(personToDeleteTask, editedPerson) && hasPerson(model.persons, editedPerson) {
      return Failure(DuplicatePerson);
    }
    FirstOfNameAfterEdit(old(model.persons), cmd.name, k, personToDeleteTask);
    FirstOfNameIsFirstEqual(model.persons, cmd.name, k);
    model.SetPerson(personToDeleteTask, editedPerson);
    model.UpdateFilteredPersonList(ShowAll);
    r := Success(TaskDeleted(cmd.name, cmd.group, cmd.task));
  }

  /** The first person equal to the first person called `name` sits at the same place. */
  lemma FirstOfNameIsFirstEqual(persons: seq<Person>, name: string, k: nat)
    requires IndexWhere(persons, HasName(name)) == Some(k)
    ensures IndexWhere(persons, EqualTo(persons[k])) == Some(k)
  {
  }

  /** Replacing the first person called `name` by another person of that name keeps it first. */
  lemma FirstOfNameAfterEdit(persons: seq<Person>, name: string, k: nat, p: Person)
    requires IndexWhere(persons, HasName(name)) == Some(k)
    requires p.name == name
    ensures IndexWhere(persons[k := p], HasName(name)) == Some(k)
  {
    var edited := persons[k := p];
    assert HasName(name)(edited[k]);
    forall j | 0 <= j < k ensures !HasName(name)(edited[j]) {
      assert edited[j] == persons[j];
    }
  }

  /** No person has the name: the invalid-person error, with the list untouched. */
  lemma UnknownPersonFails(
    persons: seq<Person>, cmd: DeleteTaskCommand,
    isSamePerson: (Person, Person) -> bool, hasPerson: (seq<Person>, Person) -> bool)
    ensures var s := Run(persons, cmd, isSamePerson, hasPerson);
      && (s.outcome == Failure(InvalidPerson)
          <==> forall i :: 0 <= i < |persons| ==> persons[i].name != cmd.name)
      && (s.outcome == Failure(InvalidPerson) ==> s.persons == persons)
  {
  }

  /** The first person of that name lacks the group: group-not-found, list untouched. */
  lemma MissingGroupFails(
    persons: seq<Person>, cmd: DeleteTaskCommand,
    isSamePerson: (Person, Person) -> bool, hasPerson: (seq<Person>, Person) -> bool, k: nat)
    requires IndexWhere(persons, HasName(cmd.name)) == Some(k)
    ensures var s := Run(persons, cmd, isSamePerson, hasPerson);
      && (s.outcome == Failure(GroupNotFound) <==> cmd.group !in persons[k].assignments)
      && (s.outcome == Failure(GroupNotFound) ==> s.persons == persons)
  {
  }

  /** The group's list lacks the task: assignment-not-found, list untouched. */
  lemma MissingTaskFails(
    persons: seq<Person>, cmd: DeleteTaskCommand,
    isSamePerson: (Person, Person) -> bool, hasPerson: (seq<Person>, Person) -> bool, k: nat)
    requires IndexWhere(persons, HasName(cmd.name)) == Some(k)
    requires cmd.group in persons[k].assignments
    ensures var s := Run(persons, cmd, isSamePerson, hasPerson);
      && (s.outcome == Failure(AssignmentNotFound)
          <==> cmd.task !in persons[k].assignments[cmd.group])
      && (s.outcome == Failure(AssignmentNotFound) ==> s.persons == persons)
  {
  }

  /** Once the three checks pass, the first person of that name is the only
      one that changes, and only in its assignments. */
  lemma EditsOnlyFirstMatch(
    persons: seq<Person>, cmd: DeleteTaskCommand,
    isSamePerson: (Person, Person) -> bool, hasPerson: (seq<Person>, Person) -> bool, k: nat)
    requires IndexWhere(persons, HasName(cmd.name)) == Some(k)
    requires cmd.group in persons[k].assignments
    requires cmd.task in persons[k].assignments[cmd.group]
    ensures var s := Run(persons, cmd, isSamePerson, hasPerson);
      && s.persons == persons[k := s.persons[k]]
      && s.persons[k] == persons[k].(assignments := s.persons[k].assignments)
  {
  }

  /** Once the three checks pass, the first occurrence of the task leaves the
      group's list and the rest keeps its order; the group goes when nothing is
      left; every other group stays as it was. */
  lemma RemovesFirstOccurrence(
    persons: seq<Person>, cmd: DeleteTaskCommand,
    isSamePerson: (Person, Person) -> bool, hasPerson: (seq<Person>, Person) -> bool,
    k: nat, i: nat)
    requires IndexWhere(persons, HasName(cmd.name)) == Some(k)
    requires cmd.group in persons[k].assignments
    requires IndexWhere(persons[k].assignments[cmd.group], EqualTo(cmd.task)) == Some(i)
    ensures var before := persons[k].assignments;
      var after := Run(persons, cmd, isSamePerson, hasPerson).persons[k].assignments;
      var rest := before[cmd.group][..i] + before[cmd.group][i + 1..];
      && (rest == [] ==> cmd.group !in after)
      && (rest != [] ==> cmd.group in after && after[cmd.group] == rest)
      && (forall g :: g != cmd.group ==> (g in after <==> g in before))
      && (forall g :: g != cmd.group && g in before ==> after[g] == before[g])
  {
    var before := persons[k].assignments;
    var list := before[cmd.group];
    assert EqualTo(cmd.task)(list[i]);
    RemoveFirstAt(list, cmd.task, i);
    var after := Run(persons, cmd, isSamePerson, hasPerson).persons[k].assignments;
    assert after == RemoveTask(before, cmd.group, cmd.task);
  }

  /** Once the three checks pass, the command fails only on the duplicate test,
      and only when the edited person is not the same person as itself and the
      model already has it. Either way the edit stays in the list, because the
      person's own map was changed before the test. */
  lemma DuplicateCheckAfterEdit(
    persons: seq<Person>, cmd: DeleteTaskCommand,
    isSamePerson: (Person, Person) -> bool, hasPerson: (seq<Person>, Person) -> bool, k: nat)
    requires IndexWhere(persons, HasName(cmd.name)) == Some(k)
    requires cmd.group in persons[k].assignments
    requires cmd.task in persons[k].assignments[cmd.group]
    ensures var s := Run(persons, cmd, isSamePerson, hasPerson);
      var edited := s.persons[k];
      && (s.outcome == Failure(DuplicatePerson)
          <==> !isSamePerson(edited, edited) && hasPerson(s.persons, edited))
      && (s.outcome != Failure(DuplicatePerson)
          ==> s.outcome == Success(TaskDeleted(cmd.name, cmd.group, cmd.task)))
      && edited.assignments != persons[k].assignments
      && s.persons != persons
  {
  }

  /** With an identity relation under which everyone is the same person as
      themselves, the duplicate error never fires. */
  lemma ReflexiveIdentityNeverDuplicate(
    persons: seq<Person>, cmd: DeleteTaskCommand,
    isSamePerson: (Person, Person) -> bool, hasPerson: (seq<Person>, Person) -> bool)
    requires forall p :: isSamePerson(p, p)
    ensures Run(persons, cmd, isSamePerson, hasPerson).outcome != Failure(DuplicatePerson)
  {
  }

  /** The command never leaves a group bound to an empty list where there was none. */
  lemma NoEmptyGroupKept(
    persons: seq<Person>, cmd: DeleteTaskCommand,
    isSamePerson: (Person, Person) -> bool, hasPerson: (seq<Person>, Person) -> bool)
    requires forall i :: 0 <= i < |persons| ==> NoEmptyGroup(persons[i])
    ensures var s := Run(persons, cmd, isSamePerson, hasPerson);
      forall i :: 0 <= i < |s.persons| ==> NoEmptyGroup(s.persons[i])
  {
  }

  /** Running a successful delete again: when the task was in the group once,
      the second run fails, with group-not-found when the task was the group's
      only one (the group was dropped) and assignment-not-found otherwise, and
      the list does not change a second time. */
  lemma RerunFails(
    persons: seq<Person>, cmd: DeleteTaskCommand,
    isSamePerson: (Person, Person) -> bool, hasPerson: (seq<Person>, Person) -> bool, k: nat)
    requires IndexWhere(persons, HasName(cmd.name)) == Some(k)
    requires cmd.group in persons[k].assignments
    requires multiset(persons[k].assignments[cmd.group])[cmd.task] == 1
    ensures var once := Run(persons, cmd, isSamePerson, hasPerson);
      var twice := Run(once.persons, cmd, isSamePerson, hasPerson);
      && twice.outcome == (if persons[k].assignments[cmd.group] == [cmd.task]
                           then Failure(GroupNotFound) else Failure(AssignmentNotFound))
      && twice.persons == once.persons
  {
    var list := persons[k].assignments[cmd.group];
    var once := Run(persons, cmd, isSamePerson, hasPerson);
    assert cmd.task in list;
    FirstOfNameAfterEdit(persons, cmd.name, k, once.persons[k]);
    assert once.persons == persons[k := once.persons[k]];
    RemoveSoleCopy(list, cmd.task);
    assert |list| == 1 ==> list == [list[0]];
  }

  /** Alice has two labs in one group: deleting the first keeps the group with
      the second; deleting that one too drops the group. */
  lemma TwoLabsScenario(
    phone: string, email: string, address: string, tags: set<string>,
    isSamePerson: (Person, Person) -> bool, hasPerson: (seq<Person>, Person) -> bool)
    requires forall p :: isSamePerson(p, p)
    ensures var alice := Person("Alice", phone, email, address, tags,
                                map["CS2103" := ["Lab 1", "Lab 2"]]);
      var first := Run([alice], DeleteTaskCommand("Alice", "CS2103", "Lab 1"), isSamePerson, hasPerson);
      var second := Run(first.persons, DeleteTaskCommand("Alice", "CS2103", "Lab 2"), isSamePerson, hasPerson);
      && first.outcome == Success(TaskDeleted("Alice", "CS2103", "Lab 1"))
      && first.persons == [alice.(assignments := map["CS2103" := ["Lab 2"]])]
      && second.outcome == Success(TaskDeleted("Alice", "CS2103", "Lab 2"))
      && second.persons == [alice.(assignments := map[])]
  {
    var alice := Person("Alice", phone, email, address, tags, map["CS2103" := ["Lab 1", "Lab 2"]]);
    assert HasName("Alice")(alice);
    assert ["Lab 1", "Lab 2"][1..] == ["Lab 2"];
    var first := Run([alice], DeleteTaskCommand("Alice", "CS2103", "Lab 1"), isSamePerson, hasPerson);
    assert first.persons[0].assignments == map["CS2103" := ["Lab 2"]];
    assert HasName("Alice")(first.persons[0]);
    var emptied := first.persons[0].assignments - {"CS2103"};
    assert emptied == map[];
  }

  /** `equals`: true exactly for a delete-task command with the same name, group and task. */
  function Equals(cmd: DeleteTaskCommand, other: Object): (r: bool)
    ensures r <==> other == DeleteTaskObject(cmd)
  {
    other.DeleteTaskObject?
    && cmd.name == other.deleteTask.name
    && cmd.group == other.deleteTask.group
    && cmd.task == other.deleteTask.task
  }
}
