/** Parser of `assigntask NAME g/GROUP task/TASK`. */
module AssignTaskParser {
  import opened Sequences
  import opened Commands
  import opened ArgumentParsing
  import DeleteTaskParser

  /** The preamble is the name; the `g/` and `task/` values are both needed,
      and a missing one is a format error with the assign-task usage. */
  function Parse(args: Tokenized): (r: ParseResult<AssignTaskCommand>)
    ensures r.Parsed? <==> args.group.Some? && args.task.Some?
    ensures r.Parsed? ==> Arguments(r.command.name, r.command.group, r.command.task) == args
    ensures r.FormatError? ==> r.usage == AssignTaskUsage
  {
    if args.group.None? || args.task.None? then FormatError(AssignTaskUsage)
    else Parsed(AssignTaskCommand(args.preamble, args.group.value, args.task.value))
  }

  /** A command written out in full parses back to itself. */
  lemma ParseArguments(cmd: AssignTaskCommand)
    ensures Parse(Arguments(cmd.name, cmd.group, cmd.task)) == Parsed(cmd)
  {
  }

  /** The two parsers extract the same triple from the same arguments, and
      fail on the same arguments, each with its own usage text. */
  lemma SameExtractionAsDeleteTask(args: Tokenized)
    ensures Parse(args).Parsed? <==> DeleteTaskParser.Parse(args).Parsed?
    ensures Parse(args).Parsed? ==>
      var a, d := Parse(args).command, DeleteTaskParser.Parse(args).command;
      a.name == d.name && a.group == d.group && a.task == d.task
  {
  }

  /** The `assigntask alice g/Group Alpha task/Coursework 0` example. */
  lemma UsageExample()
    ensures Parse(Tokenized("alice", Some("Group Alpha"), Some("Coursework 0")))
         == Parsed(AssignTaskCommand("alice", "Group Alpha", "Coursework 0"))
  {
  }
}
