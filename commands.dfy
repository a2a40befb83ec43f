/** The command values, what they report and how they fail. */
module Commands {
  import opened AddressBook

  /** `deletetask NAME g/GROUP task/TASK`. */
  datatype DeleteTaskCommand = DeleteTaskCommand(name: string, group: string, task: string)

  /** `assigntask NAME g/GROUP task/TASK`; only its construction is modelled. */
  datatype AssignTaskCommand = AssignTaskCommand(name: string, group: string, task: string)

  /** The full-name predicate of `deletebyname NAME`, identified by the name it carries. */
  datatype FullNamePredicate = FullNamePredicate(fullName: string)

  /** `deletebyname NAME`. */
  datatype DeleteUserByNameCommand = DeleteUserByNameCommand(namePredicate: FullNamePredicate)

  /** The argument of `equals(Object)`: one of the commands above, or anything else. */
  datatype Object =
    | DeleteTaskObject(deleteTask: DeleteTaskCommand)
    | AssignTaskObject(assignTask: AssignTaskCommand)
    | DeleteUserByNameObject(deleteByName: DeleteUserByNameCommand)
    | OtherObject

  /** The message of a command result that is returned normally. */
  datatype Feedback =
    | TaskDeleted(name: string, group: string, task: string)
    | PersonDeleted(person: Person)
    | InvalidPersonName

  /** The reason carried by a thrown command exception. */
  datatype CommandError = InvalidPerson | GroupNotFound | AssignmentNotFound | DuplicatePerson

  /** A command either returns a result or throws. */
  datatype Outcome = Success(feedback: Feedback) | Failure(error: CommandError)

  /** What a command reports together with the master list it leaves behind. */
  datatype Step<+R> = Step(outcome: R, persons: seq<Person>)
}
