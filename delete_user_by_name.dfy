/** `deletebyname NAME`: shows every person again, then deletes the first
    person the full-name predicate accepts. A name nobody has is reported in a
    normal result, not by throwing. */
module DeleteUserByName {
  import opened Sequences
  import opened AddressBook
  import opened Commands

  /** The predicate of the command as a test on persons; `test` is how a
      full-name predicate judges a person. */
  function Accepts(namePredicate: FullNamePredicate, test: (FullNamePredicate, Person) -> bool)
    : Person -> bool
  {
    p => test(namePredicate, p)
  }

  /** What executing `cmd` reports and the master list it leaves. */
  function Run(persons: seq<Person>, cmd: DeleteUserByNameCommand, test: (FullNamePredicate, Person) -> bool)
    : (s: Step<Feedback>)
    ensures |s.persons| == |persons| || |s.persons| == |persons| - 1
  {
    match IndexWhere(persons, Accepts(cmd.namePredicate, test))
    case None => Step(InvalidPersonName, persons)
    case Some(i) => Step(PersonDeleted(persons[i]), persons[..i] + persons[i + 1..])
  }

  /** The scan of the displayed list: -1 when nobody is accepted, otherwise
      the smallest index of an accepted person. */
  method FindFirst(list: seq<Person>, namePredicate: FullNamePredicate, test: (FullNamePredicate, Person) -> bool)
    returns (targetIndex: int)
    ensures -1 <= targetIndex < |list|
    ensures targetIndex == -1 <==> forall j :: 0 <= j < |list| ==> !test(namePredicate, list[j])
    ensures targetIndex != -1 ==> test(namePredicate, list[targetIndex])
    ensures forall j :: 0 <= j < targetIndex ==> !test(namePredicate, list[j])
  {
    targetIndex := -1;
    for i := 0 to |list|
      invariant targetIndex == -1
      invariant forall j :: 0 <= j < i ==> !test(namePredicate, list[j])
    {
      if test(namePredicate, list[i]) {
        targetIndex := i;
        break;
      }
    }
  }

  /** The command, run against the model in place. It never throws. */
  method Execute(cmd: DeleteUserByNameCommand, model: AddressModel, test: (FullNamePredicate, Person) -> bool)
    returns (r: Feedback)
    modifies model
    ensures Step(r, model.persons) == Run(old(model.persons), cmd, test)
    ensures model.filter == ShowAll
  {
    model.UpdateFilteredPersonList(ShowAll);
    var lastShownList := model.FilteredPersons();
    var targetIndex := FindFirst(lastShownList, cmd.namePredicate, test);
    ghost var accepts := Accepts(cmd.namePredicate, test);
    assert forall j :: 0 <= j < |lastShownList| ==> accepts(lastShownList[j]) == test(cmd.namePredicate, lastShownList[j]);
    if targetIndex == -1 {
      return InvalidPersonName;
    }
    var personToDelete := lastShownList[targetIndex];
    FirstAcceptedIsFirstEqual(lastShownList, accepts, targetIndex);
    model.DeletePerson(personToDelete);
    r := PersonDeleted(personToDelete);
  }

  /** Deleting the first equal person removes exactly the first accepted one. */
  lemma FirstAcceptedIsFirstEqual(persons: seq<Person>, accepts: Person -> bool, i: nat)
    requires IndexWhere(persons, accepts) == Some(i)
    ensures RemoveFirst(persons, persons[i]) == persons[..i] + persons[i + 1..]
  {
    assert EqualTo(persons[i])(persons[i]);
    forall j | 0 <= j < i ensures !EqualTo(persons[i])(persons[j]) {
      assert !accepts(persons[j]);
    }
    RemoveFirstAt(persons, persons[i], i);
  }

  /** Nobody is accepted exactly when the invalid-name message comes back; then
      nothing is deleted. */
  lemma NoMatchReportsInvalidName(persons: seq<Person>, cmd: DeleteUserByNameCommand, test: (FullNamePredicate, Person) -> bool)
    ensures var s := Run(persons, cmd, test);
      && (s.outcome == InvalidPersonName
          <==> forall j :: 0 <= j < |persons| ==> !test(cmd.namePredicate, persons[j]))
      && (s.outcome == InvalidPersonName ==> s.persons == persons)
  {
  }

  /** When someone is accepted, the first accepted person is deleted and named
      in the message; all others stay, in order. */
  lemma DeletesFirstMatch(persons: seq<Person>, cmd: DeleteUserByNameCommand, test: (FullNamePredicate, Person) -> bool, i: nat)
    requires i < |persons| && test(cmd.namePredicate, persons[i])
    requires forall j :: 0 <= j < i ==> !test(cmd.namePredicate, persons[j])
    ensures var s := Run(persons, cmd, test);
      && s.outcome == PersonDeleted(persons[i])
      && s.persons == persons[..i] + persons[i + 1..]
      && multiset(s.persons) + multiset{persons[i]} == multiset(persons)
  {
    var accepts := Accepts(cmd.namePredicate, test);
    assert accepts(persons[i]);
    forall j | 0 <= j < i ensures !accepts(persons[j]) {
    }
    assert persons == persons[..i] + [persons[i]] + persons[i + 1..];
  }

  /** With exactly one accepted person, that person is gone afterwards and
      nobody left is accepted. */
  lemma SoleMatchRemoved(persons: seq<Person>, cmd: DeleteUserByNameCommand, test: (FullNamePredicate, Person) -> bool, i: nat)
    requires i < |persons| && test(cmd.namePredicate, persons[i])
    requires forall j :: 0 <= j < |persons| && j != i ==> !test(cmd.namePredicate, persons[j])
    ensures var s := Run(persons, cmd, test);
      && |s.persons| == |persons| - 1
      && forall j :: 0 <= j < |s.persons| ==> !test(cmd.namePredicate, s.persons[j])
  {
  }

  /** `equals`: true exactly for a delete-by-name command with an equal predicate. */
  function Equals(cmd: DeleteUserByNameCommand, other: Object): (r: bool)
    ensures r <==> other == DeleteUserByNameObject(cmd)
  {
    other.DeleteUserByNameObject? && cmd.namePredicate == other.deleteByName.namePredicate
  }
}
