/**
  The rule of main's control loop: it reads standard input line by line while
  `running` holds, and stops on the line "stop" in any case or when reading
  throws an IOException.
*/
module StdinControl {
  import opened JavaStrings

  /**
    The outcome of one `readLine()`: a line, null at the end of the stream
    (whose `equalsIgnoreCase` call throws a NullPointerException that is
    swallowed), or an IOException.
  */
  datatype ReadResult = Line(text: string) | EndOfStream | ReadError

  /**
    The read makes the loop clear `running`: an IOException, or a line that is
    "stop" once lower-cased. The whole line must match, not a part of it, so a
    stopping line has four characters.
  */
  predicate EndsLoop(read: ReadResult): (stop: bool)
    ensures stop <==> read.ReadError? || (read.Line? && Lower(read.text) == "stop")
    ensures stop && read.Line? ==> |read.text| == 4
  {
    match read
    case Line(text) =>
      EqualsIgnoreCaseIsLowerEquality(text, "stop");
      assert Lower("stop") == "stop";
      EqualsIgnoreCase(text, "stop")
    case EndOfStream => false
    case ReadError => true
  }

  /** Examples: case does not matter, a longer line or the end of input does not stop, an I/O error does. */
  lemma StopExamples()
    ensures EndsLoop(Line("STOP")) && EndsLoop(Line("Stop")) && EndsLoop(Line("stop"))
    ensures !EndsLoop(Line("please stop now")) && !EndsLoop(Line(""))
    ensures !EndsLoop(EndOfStream) && EndsLoop(ReadError)
  {
  }
}
