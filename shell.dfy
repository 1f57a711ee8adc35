/** External commands (`playerctl`, `amixer`) as the media services issue
    them: the model records each command line instead of running it, and
    takes the command's output as an input of the operation. */
module Shell {
  /** A program name and its argument vector, as given to `Command::new(..).args(..)`. */
  datatype Command = Command(program: string, args: seq<string>)

  /** Every command issued so far, oldest first. */
  class Log {
    var issued: seq<Command>

    constructor ()
      ensures issued == []
    {
      issued := [];
    }

    /** Issues one command. */
    method Run(cmd: Command)
      modifies this
      ensures issued == old(issued) + [cmd]
    {
      issued := issued + [cmd];
    }
  }
}
