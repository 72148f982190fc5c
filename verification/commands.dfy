/** The `Command` entity of main.cpp:23-59 and the `ECommand` tag of
    main.cpp:9-13. A command is a value: its fields never change after
    construction. The handler callback is not stored; dispatch goes through
    the tag (see module Handlers). `get_merged_text` is `Strings.MergeStrings`
    applied to `text`. */
module Commands {
  import opened Common
  import opened Strings

  datatype ECommand = OptUserCreate | OptUserDelete | OptUserInfo

  datatype Command = Command(id: ECommand, text: seq<string>, help: string)

  /** The Command constructor (main.cpp:27-32): it refuses an empty token
      sequence with `std::logic_error("command-text is empty")`. */
  function MakeCommand(id: ECommand, text: seq<string>, help: string): (r: Result<Command>)
    ensures r.Success? <==> |text| > 0
    ensures r.Success? ==> r.value.id == id && r.value.text == text && r.value.help == help
    ensures r.Failure? ==> r.error == LogicError("command-text is empty")
  {
    if |text| == 0 then Failure(LogicError("command-text is empty"))
    else Success(Command(id, text, help))
  }

  /** A text as `register_command` stores it: the result of `split` on a
      string with at least one word, so non-empty and made of words. */
  predicate IsCommandText(text: seq<string>)
  {
    |text| > 0 && forall k :: 0 <= k < |text| ==> IsWord(text[k])
  }
}
