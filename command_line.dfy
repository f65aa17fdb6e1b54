/**
  What `main` asks of the device: the ranges the command line accepts for
  `--brightness` and `--output`, and the requests it makes: the brightness
  frame first, then the test-pattern frame, each only when its option is given.
*/
module CommandLine {
  import opened Frame
  import opened FrameProperties
  import Patterns
  import Devices

  /** `--brightness` accepts 0..255. */
  predicate BrightnessChoice(b: int) { 0 <= b < 0x100 }

  /** `--output` as written accepts 0..255, so output 0 gets through. */
  predicate OutputChoiceAsWritten(o: int) { 0 <= o < 0x100 }

  /** `--output` counted from 1: the 256 outputs the port byte `output - 1` can carry. */
  predicate OutputChoice(o: int) { 1 <= o <= 0x100 }

  /** The request `set_brightness` hands to `generate`. */
  function BrightnessRequest(output: int, b: int): Request
  {
    Request(0, Devices.RegBrightnessOverall, 1, Int(b), output, true, true, 0)
  }

  /** The request `show_pattern` hands to `generate`. */
  function PatternRequest(output: int, code: int): Request
  {
    Request(0, Devices.RegTestPattern, 1, Int(code), output, true, true, 0)
  }

  /**
    The requests of one run of `main`, in the order it makes them: the
    brightness when given, then the pattern when a test name is given and
    one of the dispatch branches matches it. A brightness request that
    raises ends the run, so no pattern request follows it.
  */
  function Requests(output: int, brightness: Option<int>, test: Option<string>): (rs: seq<Request>)
    ensures |rs| == (if brightness.Some? then 1 else 0)
                    + (if test.Some? && test.value in Patterns.TestChoices && BrightnessReturns(output, brightness)
                       then 1 else 0)
    ensures brightness.Some? ==> rs[0] == BrightnessRequest(output, brightness.value)
    ensures test.Some? && test.value in Patterns.TestChoices && BrightnessReturns(output, brightness) ==>
      rs[|rs| - 1] == PatternRequest(output, Patterns.PatternCode(test.value).value)
    ensures forall i :: 0 <= i < |rs| - 1 ==> Encode(rs[i]).Ok?
    ensures forall i :: 0 <= i < |rs| ==> rs[i].port == output && rs[i].serno == 0 && rs[i].dataLen == 1
  {
    (if brightness.Some? then [BrightnessRequest(output, brightness.value)] else [])
    + (if test.Some? && BrightnessReturns(output, brightness)
       then PatternRequests(output, Patterns.PatternCode(test.value)) else [])
  }

  /** `set_brightness` was not called, or returned rather than raised. */
  predicate BrightnessReturns(output: int, brightness: Option<int>)
  {
    brightness.None? || Encode(BrightnessRequest(output, brightness.value)).Ok?
  }

  /** The pattern request for the code a name selects; none when no branch matches. */
  function PatternRequests(output: int, code: Option<int>): seq<Request>
  {
    if code.Some? then [PatternRequest(output, code.value)] else []
  }

  /**
    With every option in the ranges the command line accepts, and output
    numbers counted from 1, every request of a run encodes to a frame: the
    brightness or pattern code fits the payload byte and the port byte is
    `output - 1`.
  */
  lemma RequestsSucceed(output: int, brightness: Option<int>, test: Option<string>)
    requires OutputChoice(output)
    requires brightness.Some? ==> BrightnessChoice(brightness.value)
    ensures forall r <- Requests(output, brightness, test) ::
      Encode(r).Ok? && Encode(r).value[7] == output - 1
  {
    var rs := Requests(output, brightness, test);
    forall r <- rs
      ensures Encode(r).Ok? && Encode(r).value[7] == output - 1
    {
      EncodeSucceeds(r);
      FrameLayout(r);
    }
  }

  /**
    Output 0 passes the command-line check yet every request for it fails:
    `port - 1` is -1 and the port byte's append raises before anything is
    written.
  */
  lemma OutputZeroRaises(brightness: Option<int>, test: Option<string>)
    ensures OutputChoiceAsWritten(0) && !OutputChoice(0)
    ensures forall r <- Requests(0, brightness, test) :: Encode(r) == Err(ByteOutOfRange(PortField))
  {
    forall r <- Requests(0, brightness, test)
      ensures Encode(r) == Err(ByteOutOfRange(PortField))
    {
      EncodeError(r);
    }
  }
}
