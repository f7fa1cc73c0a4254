/** Statuses and the error texts that carry them: "#code message". */
module Status {
  import opened GoTypes

  datatype ServiceStatus = ServiceStatus(code: string, message: string)

  const OK := "2000"
  const INTERNAL_SERVER_ERROR := "5000"
  const UNKNOWN := "0000"

  /** A code already in front of the message wins over the one given. */
  function FixCodeMsg(code: string, msg: string): (string, string) {
    if |msg| > 6 && msg[0] == '#' && msg[5] == ' ' then (msg[1..5], msg[6..]) else (code, msg)
  }

  function NewError(code: string, msg: string): string {
    var (c, m) := FixCodeMsg(code, msg);
    "#" + c + " " + m
  }

  function NewResponseError(code: string, msg: string): ServiceStatus {
    var (c, m) := FixCodeMsg(code, msg);
    ServiceStatus(c, m)
  }

  /** The error of a status; None is Go's nil, for the status and the result. */
  function Err(s: Option<ServiceStatus>): Option<string> {
    match s
    case None => Some(NewError(UNKNOWN, "Unknown Error"))
    case Some(st) => if st.code != OK then Some("#" + st.code + " " + st.message) else None
  }

  function ParseError(err: Option<string>): ServiceStatus {
    match err
    case None => ServiceStatus(OK, "")
    case Some(e) =>
      if |e| >= 6 && e[0] == '#' && e[5] == ' ' then ServiceStatus(e[1..5], e[6..])
      else ServiceStatus(INTERNAL_SERVER_ERROR, "unknown error")
  }

  /** A status survives the trip through its error text exactly when its code
      has four bytes, or when it is the plain OK. */
  lemma RoundTripIff(s: ServiceStatus)
    ensures ParseError(Err(Some(s))) == s <==> if s.code == "2000" then s.message == "" else |s.code| == 4
  {
  }

  lemma UnknownParses()
    ensures ParseError(Err(None)) == ServiceStatus("0000", "Unknown Error")
  {
  }

  /** A text without a code in front is an internal error, and no error is OK. */
  lemma UntaggedParses(text: string)
    requires |text| < 6 || text[0] != '#' || text[5] != ' '
    ensures ParseError(Some(text)) == ServiceStatus("5000", "unknown error")
    ensures ParseError(None) == ServiceStatus("2000", "")
    ensures forall message :: Err(Some(ServiceStatus("2000", message))) == None
  {
  }

  /** The message does not look like an error text that carries a code. */
  predicate Untagged(msg: string) {
    !(|msg| > 6 && msg[0] == '#' && msg[5] == ' ')
  }

  /** A response made from a code and a message tells what parsing the error
      made from them would. */
  lemma ResponseAgrees(code: string, msg: string)
    requires |code| == 4
    ensures ParseError(Some(NewError(code, msg))) == NewResponseError(code, msg)
  {
  }

  /** msg wrapped in errors, codes[0] first. */
  function WrapAll(codes: seq<string>, msg: string): string
    requires codes != []
  {
    if |codes| == 1 then NewError(codes[0], msg)
    else NewError(codes[|codes| - 1], WrapAll(codes[..|codes| - 1], msg))
  }

  /** Wrapping an error with a code and a message in further errors changes nothing. */
  lemma {:induction false} WrapsCollapse(codes: seq<string>, msg: string)
    requires codes != [] && (forall i :: 0 <= i < |codes| ==> |codes[i]| == 4) && Untagged(msg) && msg != ""
    ensures WrapAll(codes, msg) == "#" + codes[0] + " " + msg
    decreases |codes|
  {
    if |codes| > 1 {
      var front := codes[..|codes| - 1];
      WrapsCollapse(front, msg);
      RewrapKeeps(codes[|codes| - 1], codes[0], msg);
    }
  }

  /** An error text with a message keeps its code. */
  lemma RewrapKeeps(code: string, inner: string, msg: string)
    requires |inner| == 4 && msg != ""
    ensures NewError(code, "#" + inner + " " + msg) == "#" + inner + " " + msg
  {
    var e := "#" + inner + " " + msg;
    assert e[1..5] == inner && e[6..] == msg;
  }

  /** With no message the second code takes the first for a message, and then
      nothing changes any more. */
  lemma {:induction false} EmptyWraps(codes: seq<string>)
    requires |codes| >= 2 && forall i :: 0 <= i < |codes| ==> |codes[i]| == 4
    ensures WrapAll(codes, "") == "#" + codes[1] + " #" + codes[0] + " "
    decreases |codes|
  {
    var front := codes[..|codes| - 1];
    if |codes| > 2 {
      EmptyWraps(front);
      RewrapKeeps(codes[|codes| - 1], codes[1], "#" + codes[0] + " ");
      assert "#" + codes[1] + " #" + codes[0] + " " == "#" + codes[1] + " " + ("#" + codes[0] + " ");
    } else {
      assert front == [codes[0]];
      assert WrapAll(front, "") == "#" + codes[0] + " " + "";
    }
  }

  lemma WrapsParse(codes: seq<string>, msg: string)
    requires codes != [] && (forall i :: 0 <= i < |codes| ==> |codes[i]| == 4) && Untagged(msg)
    requires msg != "" || |codes| == 1
    ensures ParseError(Some(WrapAll(codes, msg))) == ServiceStatus(codes[0], msg)
  {
    if msg != "" {
      WrapsCollapse(codes, msg);
    }
    TaggedParses(codes[0], msg);
  }

  lemma EmptyWrapsParse(codes: seq<string>)
    requires |codes| >= 2 && forall i :: 0 <= i < |codes| ==> |codes[i]| == 4
    ensures ParseError(Some(WrapAll(codes, ""))) == ServiceStatus(codes[1], "#" + codes[0] + " ")
  {
    EmptyWraps(codes);
    var inner := "#" + codes[0] + " ";
    TaggedParses(codes[1], inner);
    assert "#" + codes[1] + " #" + codes[0] + " " == "#" + codes[1] + " " + inner;
  }

  /** However often an untagged message is wrapped with four-byte codes, parsing
      gives back the innermost code and the message, except that an empty
      message does not survive a second wrapping. */
  lemma InnermostIff(codes: seq<string>, msg: string)
    requires codes != [] && (forall i :: 0 <= i < |codes| ==> |codes[i]| == 4) && Untagged(msg)
    ensures ParseError(Some(WrapAll(codes, msg))) == ServiceStatus(codes[0], msg) <==> msg != "" || |codes| == 1
  {
    if msg != "" || |codes| == 1 {
      WrapsParse(codes, msg);
    } else {
      EmptyWrapsParse(codes);
    }
  }

  lemma TaggedParses(code: string, msg: string)
    requires |code| == 4
    ensures ParseError(Some("#" + code + " " + msg)) == ServiceStatus(code, msg)
  {
  }
}
