# Task assignments of an address book: delete-task, delete-by-name and their parsers

This project models the core of a command-line contact and task manager. A
person has a name, a phone number, an email, an address, tags and
assignments. The assignments map a group name to that group's list of tasks.
The model covers the following:

- `deletetask NAME g/GROUP task/TASK` (module `DeleteTask`). It takes the first
  person called NAME and checks three things in this order: the person exists,
  the group exists, the task is in the group. It removes the first occurrence of
  the task. If the group's list is then empty, it drops the group; otherwise it
  keeps the shortened list. It rebuilds the person, runs the duplicate-person
  test and puts the edited person back into the model. Last, it makes the
  displayed list show everyone.
- `deletebyname NAME` (module `DeleteUserByName`). It makes the displayed list
  show everyone and scans that list for the first person the full-name
  predicate accepts. It deletes that person. When nobody is accepted, it
  returns a normal result with the invalid-name message instead of throwing.
- The parsers of `deletetask` and `assigntask` (modules `DeleteTaskParser` and
  `AssignTaskParser`). Each one turns the tokenized arguments into a
  (name, group, task) command, or into a format error that carries the
  command's usage text.

The model (`AddressBook.AddressModel`) is a class. It holds the master list of
persons as a sequence of `Person` values and the predicate of the displayed
list. The commands change it in place, and its operations are specified by
what the commands rely on:

- `setPerson` replaces the first person equal to its target.
- `deletePerson` removes the first person equal to its target.
- `getPersonWithName` lists the persons of that name in master-list order.
- `updateFilteredPersonList` changes only the filter.

Each command method (`Execute`) is proved equal to a specification function
(`Run`). That function gives the outcome and the final list of persons. The
lemmas beside it state the properties.

One ordering detail of `deletetask` is modelled exactly. The person's
assignments map is taken to be the person's own map, not a copy (see "## Left
out"). The task is removed from the group's list (`DeleteTaskCommand.java:71`),
and the map is updated (`:77`/`:79`), before the duplicate-person test (`:86`).
So the person held by the model is already edited when that test runs. The
three earlier failures leave the model untouched. A failed command can still
leave a partial edit: a duplicate-person failure keeps the edit
(`DuplicateCheckAfterEdit`). With an identity relation that holds between a
person and themselves, the duplicate failure cannot happen at all
(`ReflexiveIdentityNeverDuplicate`).

Running a successful `deletetask` again does not always fail with
assignment-not-found. When the task was the group's only one, the group is
gone and the second run fails with group-not-found (`RerunFails`).

## Model

| member | source | states |
|---|---|---|
| `DeleteTask.Execute` | src/main/java/seedu/address/logic/commands/DeleteTaskCommand.java:52-95 | running the command on the model gives exactly the outcome and person list of `DeleteTask.Run`; the filter is reset to show everyone on success and is untouched on failure |
| `DeleteTask.Run` | src/main/java/seedu/address/logic/commands/DeleteTaskCommand.java:52-95 | the person list keeps its length, and no person with another name changes |
| `DeleteTask.RemoveTask` | src/main/java/seedu/address/logic/commands/DeleteTaskCommand.java:70-80 | the group stays, mapped to the list without its first occurrence of the task, exactly when that list is non-empty; every other group is kept with its list |
| `DeleteTask.UnknownPersonFails` | src/main/java/seedu/address/logic/commands/DeleteTaskCommand.java:53-60 | the invalid-person error comes exactly when nobody has the name, and the list is then unchanged |
| `DeleteTask.MissingGroupFails` | src/main/java/seedu/address/logic/commands/DeleteTaskCommand.java:61-68 | for the first person of the name, group-not-found comes exactly when the group is absent, and the list is then unchanged |
| `DeleteTask.MissingTaskFails` | src/main/java/seedu/address/logic/commands/DeleteTaskCommand.java:70-74 | with the group present, assignment-not-found comes exactly when the task is not in its list, and the list is then unchanged |
| `DeleteTask.EditsOnlyFirstMatch` | src/main/java/seedu/address/logic/commands/DeleteTaskCommand.java:57-84 | once the checks pass, only the first person of the name (index 0 of the lookup) changes, and only in its assignments: name, phone, email, address and tags are copied |
| `DeleteTask.RemovesFirstOccurrence` | src/main/java/seedu/address/logic/commands/DeleteTaskCommand.java:70-80 | the group's list loses its first occurrence of the task and keeps the rest in order; the group is absent when that leaves nothing; all other groups are unchanged |
| `DeleteTask.DuplicateCheckAfterEdit` | src/main/java/seedu/address/logic/commands/DeleteTaskCommand.java:70-94 | once the checks pass, the duplicate error comes exactly when the edited person is not the same person as itself and the model has it; otherwise the command succeeds with its (name, group, task) message; either way the edit is in the list |
| `DeleteTask.ReflexiveIdentityNeverDuplicate` | src/main/java/seedu/address/logic/commands/DeleteTaskCommand.java:86-88 | if everyone is the same person as themselves, the duplicate error never comes |
| `DeleteTask.NoEmptyGroupKept` | src/main/java/seedu/address/logic/commands/DeleteTaskCommand.java:76-80 | if no person had a group mapped to an empty list, none has afterwards, whatever the outcome |
| `DeleteTask.RerunFails` | src/main/java/seedu/address/logic/commands/DeleteTaskCommand.java:61-80 | after removing a task that occurred once, the same command fails the second time: group-not-found if it was the group's only task, assignment-not-found otherwise; the list does not change again |
| `DeleteTask.TwoLabsScenario` | src/main/java/seedu/address/logic/commands/DeleteTaskCommand.java:52-94 | Alice with `CS2103: [Lab 1, Lab 2]`: deleting Lab 1 leaves `CS2103: [Lab 2]`; deleting Lab 2 then leaves no group |
| `DeleteTask.Equals` | src/main/java/seedu/address/logic/commands/DeleteTaskCommand.java:97-114 | equal exactly to a delete-task command with the same name, group and task; unequal to anything else |
| `DeleteUserByName.FindFirst` | src/main/java/seedu/address/logic/commands/DeleteUserByNameCommand.java:38-45 | the index is -1 or in range; it is -1 exactly when nobody is accepted; otherwise its person is accepted and nobody before it is |
| `DeleteUserByName.Execute` | src/main/java/seedu/address/logic/commands/DeleteUserByNameCommand.java:33-53 | running the command gives exactly the result and person list of `DeleteUserByName.Run`, and the filter shows everyone afterwards |
| `DeleteUserByName.Run` | src/main/java/seedu/address/logic/commands/DeleteUserByNameCommand.java:33-53 | at most one person leaves the list |
| `DeleteUserByName.FirstAcceptedIsFirstEqual` | src/main/java/seedu/address/logic/commands/DeleteUserByNameCommand.java:50-51 | deleting the found person by equality removes exactly the found position, not an earlier equal person |
| `DeleteUserByName.NoMatchReportsInvalidName` | src/main/java/seedu/address/logic/commands/DeleteUserByNameCommand.java:46-48 | the invalid-name result comes exactly when nobody is accepted, and nothing is deleted then |
| `DeleteUserByName.DeletesFirstMatch` | src/main/java/seedu/address/logic/commands/DeleteUserByNameCommand.java:50-52 | the first accepted person is deleted and named in the result; everyone else stays in order; exactly one copy leaves the multiset of persons |
| `DeleteUserByName.SoleMatchRemoved` | src/main/java/seedu/address/logic/commands/DeleteUserByNameCommand.java:38-52 | with exactly one accepted person, the list shrinks by one and nobody left is accepted |
| `DeleteUserByName.Equals` | src/main/java/seedu/address/logic/commands/DeleteUserByNameCommand.java:55-70 | equal exactly to a delete-by-name command with an equal predicate |
| `DeleteTaskParser.Parse` | src/main/java/seedu/address/logic/parser/DeleteTaskCommandParser.java:24-42 | a command comes exactly when both the `g/` and `task/` values are present, and it carries the preamble, the group and the task; otherwise a format error with the delete-task usage |
| `DeleteTaskParser.ParseArguments` | src/main/java/seedu/address/logic/parser/DeleteTaskCommandParser.java:33-41 | a command written out as arguments parses back to itself |
| `DeleteTaskParser.UsageExample` | src/main/java/seedu/address/logic/commands/DeleteTaskCommand.java:25-27 | the usage example `alice g/Group Alpha task/Coursework 0` parses to (alice, Group Alpha, Coursework 0) |
| `AssignTaskParser.Parse` | src/main/java/seedu/address/logic/parser/AssignTaskCommandParser.java:22-40 | a command comes exactly when both the `g/` and `task/` values are present, built from (preamble, group, task) in that order; otherwise a format error with the assign-task usage |
| `AssignTaskParser.ParseArguments` | src/main/java/seedu/address/logic/parser/AssignTaskCommandParser.java:31-39 | a command written out as arguments parses back to itself |
| `AssignTaskParser.SameExtractionAsDeleteTask` | src/main/java/seedu/address/logic/parser/AssignTaskCommandParser.java:31-37 | both parsers succeed on the same arguments and extract the same (name, group, task) |
| `AssignTaskParser.UsageExample` | src/main/java/seedu/address/logic/parser/AssignTaskCommandParser.java:31-39 | `alice g/Group Alpha task/Coursework 0` parses to (alice, Group Alpha, Coursework 0) |
| `AddressBook.AddressModel.GetPersonWithName` | src/main/java/seedu/address/logic/commands/DeleteTaskCommand.java:53-57 | every person listed has the name and is in the model; the list is empty exactly when nobody has the name; element 0 is the first such person of the master list |
| `AddressBook.AddressModel.FilteredPersons` | src/main/java/seedu/address/logic/commands/DeleteUserByNameCommand.java:35-36 | the displayed list holds only persons of the model, and it is the whole master list once the filter shows everyone |
| `AddressBook.AddressModel.SetPerson` | src/main/java/seedu/address/logic/commands/DeleteTaskCommand.java:90 | the first person equal to the target is replaced by the edited person; the filter is kept |
| `AddressBook.AddressModel.DeletePerson` | src/main/java/seedu/address/logic/commands/DeleteUserByNameCommand.java:51 | the first person equal to the target is removed; the filter is kept |
| `AddressBook.AddressModel.UpdateFilteredPersonList` | src/main/java/seedu/address/logic/commands/DeleteTaskCommand.java:91 | the filter becomes the given predicate and the master list is unchanged |
| `Sequences.IndexWhere` | src/main/java/seedu/address/logic/commands/DeleteUserByNameCommand.java:38-45 | the position found satisfies the test and no earlier one does; there is none exactly when no element satisfies it |
| `Sequences.RemoveFirst` | src/main/java/seedu/address/logic/commands/DeleteTaskCommand.java:71 | the list is unchanged when the element is absent; otherwise it is one shorter |
| `Sequences.RemoveFirstAt` | src/main/java/seedu/address/logic/commands/DeleteTaskCommand.java:71 | only the first occurrence is removed; the elements before and after it keep their order |
| `Sequences.RemoveFirstMultiset` | src/main/java/seedu/address/logic/commands/DeleteTaskCommand.java:71 | exactly one copy of the element leaves the multiset of elements |

## Left out

- The argument tokenizer is not part of this model. The parsers take what it produces: the preamble and the optional `g/` and `task/` values (`ArgumentParsing.Tokenized`). The parsers only ask for these two prefixes, so recognising only them is built into that record. Because the parsers are functions of that record, their results depend on nothing else.
- Null checks (`requireNonNull(args)`, `requireNonNull(model)`, `requireAllNonNull`) have no counterpart, because Dafny values are never null.
- The validation inside `Name` and `Assignment` is not part of this model. Names, groups and tasks are plain strings. Building `Name`/`Assignment` objects at `DeleteTaskCommandParser.java:41` becomes building a command of three strings.
- `Person.isSamePerson` and `Model.hasPerson` are not part of this model. They are parameters of `DeleteTask.Run` and `DeleteTask.Execute` with no assumed properties. `ReflexiveIdentityNeverDuplicate` states what follows if identity is reflexive.
- `FullNamePredicate` is not part of this model. How it judges a person is a parameter (`test`). Two predicates are taken as equal when they carry the same name.
- The model's implementation is not part of this model: the observable lists, the filtered view's recomputation and storage. `AddressModel` specifies its operations abstractly. `getPersonWithName` is taken to search the master list. The displayed list, once its filter shows everyone, is taken to be the master list in master-list order; the first match of `deletebyname` depends on that. `Person.getAssignments` is taken to return the person's own map, not a copy; the edit that a duplicate-person failure leaves behind depends on that. `setPerson` and `deletePerson` require their target to be in the list; this model does not cover the exceptions the real list raises otherwise, because the commands always pass a person they found in the list.
- Object identity is not modelled. Persons are values, so the short-circuit `other == this` in `equals` and the lookup of the person to replace or delete use equality of values, as the `equals`-based list operations do. The sharing of the live assignments map is modelled only by its effect: the edited person is written into the model before the duplicate test.
- Message texts and their formatting are not part of this model. Results are tagged values: `TaskDeleted(name, group, task)`, `PersonDeleted(person)`, `InvalidPersonName`, the four command errors, and a format error naming the command's usage.
- `AssignTaskCommand` is not part of this model beyond the value its parser builds.
