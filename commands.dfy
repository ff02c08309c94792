/**
 * The command words both programs know, and the help text the server
 * sends for "help".
 */
module Commands {
  import opened Results

  datatype Command = Get | GetB | Put | PutB | Ls | Help | Quit

  /** The word that names c on the command line and in cmd_dictionary. */
  function Name(c: Command): string {
    match c
    case Get => "get"
    case GetB => "getb"
    case Put => "put"
    case PutB => "putb"
    case Ls => "ls"
    case Help => "help"
    case Quit => "quit"
  }

  /** `token in cmd_dictionary`, and the handler it selects. */
  function Lookup(token: string): (r: Option<Command>)
    ensures r.Some? ==> Name(r.value) == token
  {
    if token == "get" then Some(Get)
    else if token == "getb" then Some(GetB)
    else if token == "put" then Some(Put)
    else if token == "putb" then Some(PutB)
    else if token == "ls" then Some(Ls)
    else if token == "help" then Some(Help)
    else if token == "quit" then Some(Quit)
    else None
  }

  /** Every command is found under its own name, and no two commands share one. */
  lemma LookupName(c: Command)
    ensures Lookup(Name(c)) == Some(c)
    ensures forall d: Command :: Name(d) == Name(c) ==> d == c
  {
  }

  /** The commands that take a file argument. */
  predicate TakesFile(c: Command) {
    c == Get || c == GetB || c == Put || c == PutB
  }

  /** The rows of help_cmd's message, in order. */
  const HelpRows: seq<string> := [
    "************************\n",
    "*** List of Commands ***\n",
    "************************\n",
    "*       help           *\n",
    "*        ls            *\n",
    "*    get <filename>    *\n",
    "*   getb <filename>    *\n",
    "*   putb <filename>    *\n",
    "*   put <filename>     *\n",
    "*       quit           *\n",
    "************************\n"
  ]

  /** The rows joined one after another. */
  function Concat(rows: seq<string>): string {
    if rows == [] then "" else Concat(rows[..|rows| - 1]) + rows[|rows| - 1]
  }

  lemma {:induction false} ConcatLength(rows: seq<string>, width: nat)
    requires forall i :: 0 <= i < |rows| ==> |rows[i]| == width
    ensures |Concat(rows)| == |rows| * width
  {
    if rows != [] {
      ConcatLength(rows[..|rows| - 1], width);
    }
  }

  /** help_cmd: the for loop that appends each row to all_data. */
  method HelpText() returns (allData: string)
    ensures allData == Concat(HelpRows)
    ensures |allData| == 11 * 25
  {
    allData := "";
    for i := 0 to |HelpRows|
      invariant allData == Concat(HelpRows[..i])
    {
      assert HelpRows[..i + 1][..i] == HelpRows[..i];
      allData := allData + HelpRows[i];
    }
    assert HelpRows[..|HelpRows|] == HelpRows;
    ConcatLength(HelpRows, 25);
  }
}
