/** The console logger of packages/core/src/utils/logging.ts: level names and prefixes, the
    rendering of each message, the line format, and which console writer receives the line.
    The clock and `NODE_ENV` are parameters; the console is the list of calls made on it. */
module Logging {

  datatype Level = Trace | Debug | Info | Warning | Error | Fatal

  /** `LOG_LEVEL_NAMES`. */
  function LevelName(level: Level): string {
    match level
    case Trace => "TRACE"
    case Debug => "DEBUG"
    case Info => "INFO"
    case Warning => "WARN"
    case Error => "ERROR"
    case Fatal => "FATAL"
  }

  /** `levelName.substring(0, 4)`: at most the first four characters of the name. */
  function Prefix(level: Level): (p: string)
    ensures |p| == if |LevelName(level)| < 4 then |LevelName(level)| else 4
    ensures p == LevelName(level)[..|p|]
  {
    var name := LevelName(level);
    if |name| < 4 then name else name[..4]
  }

  /** What `JSON.stringify` does with a value: produce text, produce `undefined`, or throw. */
  datatype JsonOutcome = JsonText(text: string) | JsonUndefined | JsonThrows

  /** What `String(value)` does with a value: produce text or throw. */
  datatype StringOutcome = StringText(text: string) | StringThrows

  /** A log argument: an `Error` (its message and its rendered stack) or any other value, given by
      what the two serialisers do with it. */
  datatype LogMessage =
    | ErrorValue(message: string, stack: string)
    | Other(json: JsonOutcome, str: StringOutcome)

  const Unserializable: string := "[Unserializable]"

  /** `safeSerialize`: the JSON text when there is one; else `String(value)`; and
      "[Unserializable]" when `String` throws as well. */
  function SafeSerialize(json: JsonOutcome, str: StringOutcome): (r: string)
    ensures json.JsonText? ==> r == json.text
    ensures !json.JsonText? && str.StringText? ==> r == str.text
    ensures !json.JsonText? && str.StringThrows? ==> r == Unserializable
  {
    match json
    case JsonText(t) => t
    case _ =>
      // with `undefined` the first `String(value)` sits inside the first `try`: if it throws, the
      // handler calls `String(value)` again, which throws again
      match str
      case StringText(t) => t
      case StringThrows => Unserializable
  }

  /** `processLog`: an error renders as its message, anything else through `safeSerialize`. */
  function ProcessLog(m: LogMessage): (r: string)
    ensures m.ErrorValue? ==> r == m.message
    ensures m.Other? ==> r == SafeSerialize(m.json, m.str)
  {
    match m
    case ErrorValue(message, _) => message
    case Other(json, str) => SafeSerialize(json, str)
  }

  /** `preProcessLog`: `[timestamp] PREFIX: message`, five characters of punctuation around the
      timestamp, the level prefix and the rendered message. */
  function PreProcessLog(level: Level, timestamp: string, m: LogMessage): (r: string)
    ensures |r| == |timestamp| + |Prefix(level)| + |ProcessLog(m)| + 5
  {
    "[" + timestamp + "] " + Prefix(level) + ": " + ProcessLog(m)
  }

  /** The line opens with the bracketed timestamp and a space, and closes with the message. */
  lemma PreProcessLogShape(level: Level, timestamp: string, m: LogMessage)
    ensures var r := PreProcessLog(level, timestamp, m);
      r[..|timestamp| + 3] == "[" + timestamp + "] " && r[|r| - |ProcessLog(m)|..] == ProcessLog(m)
  {
    var head := "[" + timestamp + "] ";
    var rest := Prefix(level) + ": " + ProcessLog(m);
    assert PreProcessLog(level, timestamp, m) == head + rest;
    assert PreProcessLog(level, timestamp, m) == "[" + timestamp + "] " + Prefix(level) + ": " + ProcessLog(m);
  }

  /** The line `log` builds from its arguments, by the loop's own steps: the first message goes
      through `preProcessLog`, each later one is appended after " => ". No arguments, no text. */
  function Display(level: Level, timestamp: string, messages: seq<LogMessage>): (r: string)
    ensures r == [] <==> messages == []
    decreases |messages|
  {
    if |messages| == 0 then ""
    else if |messages| == 1 then PreProcessLog(level, timestamp, messages[0])
    else Display(level, timestamp, messages[..|messages| - 1]) + " => " + ProcessLog(messages[|messages| - 1])
  }

  /** The rendering of a run of later messages, each introduced by " => ". */
  function Continuation(messages: seq<LogMessage>): (r: string)
    decreases |messages|
  {
    if messages == [] then "" else " => " + ProcessLog(messages[0]) + Continuation(messages[1..])
  }

  lemma {:induction false} ContinuationAppend(messages: seq<LogMessage>, m: LogMessage)
    ensures Continuation(messages + [m]) == Continuation(messages) + " => " + ProcessLog(m)
    decreases |messages|
  {
    if messages != [] {
      assert (messages + [m])[1..] == messages[1..] + [m];
      ContinuationAppend(messages[1..], m);
    }
  }

  /** The whole line: the header with the first message, then every later message after " => ",
      in argument order. */
  lemma {:induction false} DisplayShape(level: Level, timestamp: string, messages: seq<LogMessage>)
    requires |messages| >= 1
    ensures Display(level, timestamp, messages) == PreProcessLog(level, timestamp, messages[0]) + Continuation(messages[1..])
    decreases |messages|
  {
    if |messages| > 1 {
      var init := messages[..|messages| - 1];
      var last := messages[|messages| - 1];
      var head := PreProcessLog(level, timestamp, messages[0]);
      var rest := Continuation(init[1..]);
      calc {
        Display(level, timestamp, messages);
        Display(level, timestamp, init) + " => " + ProcessLog(last);
        { DisplayShape(level, timestamp, init); assert init[0] == messages[0]; }
        head + rest + " => " + ProcessLog(last);
        { ConcatAssoc(head, rest, " => ", ProcessLog(last)); }
        head + (rest + " => " + ProcessLog(last));
        { ContinuationAppend(init[1..], last); }
        head + Continuation(init[1..] + [last]);
        { assert messages[1..] == init[1..] + [last]; }
        head + Continuation(messages[1..]);
      }
    }
  }

  lemma ConcatAssoc(a: string, b: string, c: string, d: string)
    ensures a + b + c + d == a + (b + c + d)
  {
  }

  /** The console functions a line can go to. */
  datatype Writer = ConsoleLog | ConsoleInfo | ConsoleWarn | ConsoleError

  /** `levelToConsole`. */
  function Route(level: Level): (w: Writer)
    ensures w == ConsoleLog <==> level == Trace || level == Debug
    ensures w == ConsoleInfo <==> level == Info
    ensures w == ConsoleWarn <==> level == Warning
    ensures w == ConsoleError <==> level == Error || level == Fatal
  {
    match level
    case Trace => ConsoleLog
    case Debug => ConsoleLog
    case Info => ConsoleInfo
    case Warning => ConsoleWarn
    case Error => ConsoleError
    case Fatal => ConsoleError
  }

  datatype ConsoleCall = ConsoleCall(writer: Writer, text: string)

  /** The stack writes the loop makes: one `console.error` per error argument, in order. */
  function StackCalls(messages: seq<LogMessage>): (calls: seq<ConsoleCall>)
    ensures |calls| <= |messages|
    ensures forall c :: c in calls ==> c.writer == ConsoleError
    decreases |messages|
  {
    if messages == [] then []
    else
      var last := messages[|messages| - 1];
      StackCalls(messages[..|messages| - 1]) + (if last.ErrorValue? then [ConsoleCall(ConsoleError, last.stack)] else [])
  }

  /** Whether `log` writes anything at this level. */
  predicate Emits(level: Level, development: bool) {
    !(level == Trace && !development)
  }

  /** `log(level, ...messages)`: the console calls it makes, in order. */
  method Log(level: Level, development: bool, timestamp: string, messages: seq<LogMessage>)
    returns (calls: seq<ConsoleCall>)
    ensures !Emits(level, development) ==> calls == []
    ensures Emits(level, development) ==>
      calls == StackCalls(messages) + [ConsoleCall(Route(level), Display(level, timestamp, messages))]
  {
    if level == Trace && !development {
      return [];
    }
    var messageToDisplay := "";
    calls := [];
    for i := 0 to |messages|
      invariant messageToDisplay == Display(level, timestamp, messages[..i])
      invariant calls == StackCalls(messages[..i])
    {
      var message := messages[i];
      LogStep(level, timestamp, messages, i);
      if i == 0 {
        messageToDisplay := PreProcessLog(level, timestamp, message);
      } else {
        messageToDisplay := messageToDisplay + " => " + ProcessLog(message);
      }
      if message.ErrorValue? {
        calls := calls + [ConsoleCall(ConsoleError, message.stack)];
      }
    }
    assert messages[..|messages|] == messages;
    calls := calls + [ConsoleCall(Route(level), messageToDisplay)];
  }

  /** One more message: the line grows by it and its stack write, if any, follows the earlier ones. */
  lemma LogStep(level: Level, timestamp: string, messages: seq<LogMessage>, i: nat)
    requires i < |messages|
    ensures Display(level, timestamp, messages[..i + 1]) ==
      if i == 0 then PreProcessLog(level, timestamp, messages[i])
      else Display(level, timestamp, messages[..i]) + " => " + ProcessLog(messages[i])
    ensures StackCalls(messages[..i + 1]) ==
      StackCalls(messages[..i]) + (if messages[i].ErrorValue? then [ConsoleCall(ConsoleError, messages[i].stack)] else [])
  {
    assert messages[..i + 1][..i] == messages[..i];
  }

  /** The four-letter prefixes. */
  lemma Prefixes()
    ensures Prefix(Trace) == "TRAC" && Prefix(Debug) == "DEBU" && Prefix(Info) == "INFO"
    ensures Prefix(Warning) == "WARN" && Prefix(Error) == "ERRO" && Prefix(Fatal) == "FATA"
  {
  }

  /** Only TRACE is ever dropped, and only outside development. */
  lemma DroppedIff(level: Level, development: bool)
    ensures !Emits(level, development) <==> level == Trace && !development
  {
  }

  /** A call without error arguments makes exactly one console call: the line, on the level's writer. */
  lemma {:induction false} NoErrorsOneCall(messages: seq<LogMessage>)
    requires forall k :: 0 <= k < |messages| ==> messages[k].Other?
    ensures StackCalls(messages) == []
    decreases |messages|
  {
    if messages != [] {
      NoErrorsOneCall(messages[..|messages| - 1]);
    }
  }
}
