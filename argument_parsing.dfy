/** What the argument tokenizer hands to the parsers, and how a parse ends. */
module ArgumentParsing {
  import opened Sequences

  /** The tokenized arguments of `NAME g/GROUP task/TASK`: the free-text
      preamble and the value of each of the two recognised prefixes, `g/` and
      `task/`, when present. */
  datatype Tokenized = Tokenized(preamble: string, group: Option<string>, task: Option<string>)

  /** Which command's usage text a format error carries. */
  datatype Usage = DeleteTaskUsage | AssignTaskUsage

  /** A parse yields a command or a format error; never a partial command. */
  datatype ParseResult<+C> = Parsed(command: C) | FormatError(usage: Usage)

  /** The tokenized form of a (name, group, task) triple written out in full. */
  function Arguments(name: string, group: string, task: string): (t: Tokenized)
    ensures t.group.Some? && t.task.Some?
  {
    Tokenized(name, Some(group), Some(task))
  }
}
