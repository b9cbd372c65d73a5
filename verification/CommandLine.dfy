/** Joining quoted arguments (`render_stdio_command` in `crates/runonmine-connectors/src/openai.rs`). */
module CommandLine {
  /** The quoted arguments, joined by single spaces. */
  function Render(quote: string -> string, arguments: seq<string>): string {
    if arguments == [] then ""
    else if |arguments| == 1 then quote(arguments[0])
    else quote(arguments[0]) + " " + Render(quote, arguments[1..])
  }

  lemma RenderTail(quote: string -> string, arguments: seq<string>)
    requires arguments != []
    ensures Render(quote, arguments) ==
      quote(arguments[0]) + if |arguments| == 1 then "" else " " + Render(quote, arguments[1..])
  {
  }

  /** One more argument is one more space and the argument quoted. */
  lemma {:induction false} RenderThen(quote: string -> string, arguments: seq<string>, argument: string)
    ensures Render(quote, arguments + [argument]) ==
      if arguments == [] then quote(argument) else Render(quote, arguments) + " " + quote(argument)
    decreases |arguments|
  {
    var all := arguments + [argument];
    if arguments != [] {
      RenderThen(quote, arguments[1..], argument);
      assert all[1..] == arguments[1..] + [argument] && all[0] == arguments[0];
      RenderTail(quote, all);
      RenderTail(quote, arguments);
      hide Render;
      if |arguments| == 1 {
        assert arguments[1..] == [];
      }
    }
  }
}
