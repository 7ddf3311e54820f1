/**
 The client carries its own copy of the command-line parser. It is modelled
 with its own body, and its contract ties it to the library's parser, so
 every property proved there holds of the client's copy as well.
 */
module Client {
  import opened Wrappers
  import opened Strings
  import Library

  /** The client's parser: strip, split on ' ', pick the parts out. */
  function ParseCommand(line: string): (r: Library.ParsedCommand)
    ensures r == Library.ParseCommand(line)
  {
    var args := Split(Strip(line));
    var command := if |args| > 0 then Some(args[0]) else None;
    var arg1 := if |args| > 1 then Some(args[1]) else None;
    var remainder := if |args| > 2 then Some(Join(args[2..])) else None;
    Library.ParsedCommand(command, arg1, remainder)
  }

  /** The command is never absent; blank input, and only blank input,
      gives `("", None, None)`. */
  lemma ParseCommandBlank(line: string)
    ensures ParseCommand(line).command.Some?
    ensures AllWhitespace(line) <==> ParseCommand(line) == Library.ParsedCommand(Some(""), None, None)
  {
    Library.ParseCommandBlank(line);
  }

  /** `arg1` is present exactly when the stripped line holds a ' ', and
      `remainder` exactly when it holds two. */
  lemma ParseCommandArity(line: string)
    ensures ParseCommand(line).arg1.Some? <==> CountSpaces(Strip(line)) >= 1
    ensures ParseCommand(line).remainder.Some? <==> CountSpaces(Strip(line)) >= 2
  {
    Library.ParseCommandArity(line);
  }

  /** The present parts joined with single spaces are the stripped line. */
  lemma ParseCommandRoundTrip(line: string)
    ensures Library.Unparse(ParseCommand(line)) == Strip(line)
  {
    Library.ParseCommandRoundTrip(line);
  }

  /** Only ' ' separates tokens: any line that strips to the line of a
      well-formed triple parses as that triple, whatever tabs or other
      whitespace its parts contain. */
  lemma ParseCommandKeepsTabs(line: string, p: Library.ParsedCommand)
    requires Library.WellFormed(p) && Strip(line) == Library.Unparse(p)
    ensures ParseCommand(line) == p
  {
    Library.ParseCommandByStrip(line, p);
  }

  /** The ends are stripped and the tab stays inside `"GET\tk"`. */
  lemma ParseCommandTabExample()
    ensures ParseCommand(" GET\tk v \n") == Library.ParsedCommand(Some("GET\tk"), Some("v"), None)
  {
    Library.ParseCommandTabExample();
  }
}
