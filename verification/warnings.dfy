/** src/warningsHandler.ts: the list of warnings collected while an import
    map is read. */
module WarningsHandlers {

  /** An esbuild partial message; only its text is modelled. */
  datatype Warning = Warning(text: string)

  class WarningsHandler {
    var warnings: seq<Warning>

    /** A new handler holds no warnings. */
    constructor ()
      ensures warnings == []
    {
      warnings := [];
    }

    /** `clear()`: whatever was held is dropped. */
    method Clear()
      modifies this
      ensures warnings == []
    {
      warnings := [];
    }

    /** `push(...ws)`: all arguments are appended in order; earlier warnings stay. */
    method Push(ws: seq<Warning>)
      modifies this
      ensures warnings == old(warnings) + ws
      ensures warnings[..|old(warnings)|] == old(warnings)
      ensures ws == [] ==> warnings == old(warnings)
    {
      warnings := warnings + ws;
    }

    /** `[Symbol.iterator]()`: the warnings in the order they were pushed. */
    method Values() returns (vs: seq<Warning>)
      ensures vs == warnings
    {
      vs := warnings;
    }
  }
}
