/** Parser of `deletetask NAME g/GROUP task/TASK`. */
module DeleteTaskParser {
  import opened Sequences
  import opened Commands
  import opened ArgumentParsing

  /** The preamble is the name; the `g/` and `task/` values are both needed,
      and a missing one is a format error with the delete-task usage. */
  function Parse(args: Tokenized): (r: ParseResult<DeleteTaskCommand>)
    ensures r.Parsed? <==> args.group.Some? && args.task.Some?
    ensures r.Parsed? ==> Arguments(r.command.name, r.command.group, r.command.task) == args
    ensures r.FormatError? ==> r.usage == DeleteTaskUsage
  {
    if args.group.None? || args.task.None? then FormatError(DeleteTaskUsage)
    else Parsed(DeleteTaskCommand(args.preamble, args.group.value, args.task.value))
  }

  /** A command written out in full parses back to itself. */
  lemma ParseArguments(cmd: DeleteTaskCommand)
    ensures Parse(Arguments(cmd.name, cmd.group, cmd.task)) == Parsed(cmd)
  {
  }

  /** The `deletetask alice g/Group Alpha task/Coursework 0` usage example. */
  lemma UsageExample()
    ensures Parse(Tokenized("alice", Some("Group Alpha"), Some("Coursework 0")))
         == Parsed(DeleteTaskCommand("alice", "Group Alpha", "Coursework 0"))
  {
  }
}
