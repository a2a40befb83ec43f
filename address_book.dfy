/** The address book the commands work on: persons as values, and the model
    that holds the master list of persons and the predicate of the displayed
    (filtered) view. The model's implementation is not part of this model;
    its operations are specified here by what the commands rely on. */
module AddressBook {
  import opened Sequences

  /** A contact. `assignments` maps a group name to that group's task list. */
  datatype Person = Person(
    name: string,
    phone: string,
    email: string,
    address: string,
    tags: set<string>,
    assignments: map<string, seq<string>>)

  /** No group of the person is bound to an empty task list. */
  ghost predicate NoEmptyGroup(p: Person)
  {
    forall g :: g in p.assignments ==> p.assignments[g] != []
  }

  function HasName(name: string): Person -> bool
  {
    (p: Person) => p.name == name
  }

  /** The predicate of the displayed list: everyone, or those passing a test. */
  datatype FilterPredicate = ShowAll | Matching(test: Person -> bool)

  function Admits(f: FilterPredicate): Person -> bool
  {
    match f
    case ShowAll => (p: Person) => true
    case Matching(test) => test
  }

  class AddressModel {
    var persons: seq<Person>
    var filter: FilterPredicate

    constructor (persons: seq<Person>)
      ensures this.persons == persons && filter == ShowAll
    {
      this.persons := persons;
      filter := ShowAll;
    }

    /** The displayed list: the persons the filter admits, in master-list order. */
    function FilteredPersons(): (r: seq<Person>)
      reads this
      ensures forall i :: 0 <= i < |r| ==> r[i] in persons
      ensures filter == ShowAll ==> r == persons
    {
      Select(persons, Admits(filter))
    }

    /** The persons called `name`, in master-list order; element 0 is the first such person. */
    function GetPersonWithName(name: string): (r: seq<Person>)
      reads this
      ensures forall i :: 0 <= i < |r| ==> r[i].name == name && r[i] in persons
      ensures r == [] <==> forall i :: 0 <= i < |persons| ==> persons[i].name != name
      ensures r != [] ==> r[0] == persons[IndexWhere(persons, HasName(name)).value]
    {
      Select(persons, HasName(name))
    }

    /** Replaces the first person equal to `target` with `edited`. */
    method SetPerson(target: Person, edited: Person)
      requires target in persons
      modifies this
      ensures IndexWhere(old(persons), EqualTo(target)).Some?
      ensures persons == old(persons)[IndexWhere(old(persons), EqualTo(target)).value := edited]
      ensures filter == old(filter)
    {
      var i := IndexWhere(persons, EqualTo(target)).value;
      persons := persons[i := edited];
    }

    /** Removes the first person equal to `target`. */
    method DeletePerson(target: Person)
      requires target in persons
      modifies this
      ensures persons == RemoveFirst(old(persons), target)
      ensures filter == old(filter)
    {
      persons := RemoveFirst(persons, target);
    }

    /** Changes the predicate of the displayed list; the master list stays as it is. */
    method UpdateFilteredPersonList(newFilter: FilterPredicate)
      modifies this
      ensures persons == old(persons) && filter == newFilter
    {
      filter := newFilter;
    }
  }
}
