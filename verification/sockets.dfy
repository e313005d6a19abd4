/**
 * The server side of the chat channel: the table of open client sockets,
 * keyed by session id, and the choice of the one reply sent back for each
 * inbound message. The socket's own send and the agent graph's event stream
 * are inputs: a send succeeds or fails as the caller says, and the stream is
 * a given sequence of events that ends normally or with an exception.
 */
module Sockets {
  import opened Wrappers
  import opened JsText

  /** An accepted client socket. */
  datatype WebSocket = WebSocket(handle: nat)

  /** A text frame the server delivered on a socket. */
  datatype Frame = Frame(socket: WebSocket, text: string)

  /** The values an event can hold: strings, dictionaries, and everything else (None, booleans, numbers, lists). */
  datatype Json = JStr(s: string) | JDict(fields: map<string, Json>) | JOther

  /** One event of the agent graph's stream: a dictionary. */
  type Event = map<string, Json>

  const Fallback: string := "I'm having trouble responding right now. " + "Please try again in a moment."
  const Apology: string := "Sorry, something went wrong. " + "Please try again."

  /** `message.strip()` is non-empty: some character is not Python whitespace. */
  predicate HasContent(message: string) {
    exists k :: 0 <= k < |message| && !IsPySpace(message[k])
  }

  /** What the stream loop makes of one event. */
  datatype Step =
    | Skip              // keep reading events
    | Answer(text: string)  // send this text and stop
    | Raise             // reading the event raised

  /** The event's `data.output.final_response` is the string `t`. */
  predicate FinalResponseIs(event: Event, t: string) {
    "data" in event && event["data"].JDict? &&
    var d := event["data"].fields;
    "output" in d && d["output"].JDict? &&
    var o := d["output"].fields;
    "final_response" in o && o["final_response"] == JStr(t)
  }

  /**
   * `event.get("data", {}).get("output", {})`, then the `final_response` test.
   * A `data` entry that is not a dictionary has no `get`, so the lookup raises.
   * An `output` that is not a dictionary, a missing or non-string
   * `final_response` and an empty one are all skipped.
   */
  function Inspect(event: Event): (r: Step)
    ensures r.Raise? <==> "data" in event && !event["data"].JDict?
    ensures r.Answer? ==> r.text != [] && FinalResponseIs(event, r.text)
    ensures forall t :: t != [] && FinalResponseIs(event, t) ==> r == Answer(t)
  {
    var data := if "data" in event then event["data"] else JDict(map[]);
    match data
    case JDict(d) =>
      var output := if "output" in d then d["output"] else JDict(map[]);
      (match output
       case JDict(o) =>
         if "final_response" in o && o["final_response"].JStr? && o["final_response"].s != []
         then Answer(o["final_response"].s)
         else Skip
       case _ => Skip)
    case _ => Raise
  }

  /**
   * The text `process_message` sends: the first event's non-empty string
   * `final_response`; the apology when reading an event or the stream raises
   * first; the fallback when the stream ends without one.
   */
  function ReplyFor(events: seq<Event>, streamRaises: bool): (r: string)
    ensures r != []
    ensures r == Apology || r == Fallback ||
      exists k :: 0 <= k < |events| && Inspect(events[k]) == Answer(r)
  {
    if events == [] then (if streamRaises then Apology else Fallback)
    else match Inspect(events[0])
      case Answer(t) => t
      case Raise => Apology
      case Skip =>
        var r := ReplyFor(events[1..], streamRaises);
        assert forall k :: 0 <= k < |events[1..]| ==> events[1..][k] == events[k + 1];
        r
  }

  /** The stream loop of `process_message`: reads events until one decides the reply. */
  method SelectReply(events: seq<Event>, streamRaises: bool) returns (reply: string)
    ensures reply == ReplyFor(events, streamRaises)
    ensures reply != []
  {
    var i := 0;
    while i < |events|
      invariant 0 <= i <= |events|
      invariant ReplyFor(events[i..], streamRaises) == ReplyFor(events, streamRaises)
    {
      match Inspect(events[i])
      case Answer(t) =>
        return t;
      case Raise =>
        return Apology;
      case Skip =>
        assert events[i..][1..] == events[i + 1..];
        i := i + 1;
    }
    reply := if streamRaises then Apology else Fallback;
  }

  /**
   * The reply is the first event's answer when every earlier event was
   * skipped, the apology when an event raises before any answer, and
   * otherwise the fallback or, if the stream raised, the apology.
   */
  lemma {:induction false} ReplyForPicksFirstAnswer(events: seq<Event>, streamRaises: bool, i: nat)
    requires i <= |events|
    requires forall k :: 0 <= k < i ==> Inspect(events[k]).Skip?
    ensures i < |events| && Inspect(events[i]).Answer? ==>
      ReplyFor(events, streamRaises) == Inspect(events[i]).text
    ensures i < |events| && Inspect(events[i]).Raise? ==> ReplyFor(events, streamRaises) == Apology
    ensures i == |events| ==> ReplyFor(events, streamRaises) == if streamRaises then Apology else Fallback
    decreases i
  {
    if i > 0 {
      ReplyForPicksFirstAnswer(events[1..], streamRaises, i - 1);
    }
  }

  class ConnectionManager {
    /** `active_connections`: session id to socket. */
    var activeConnections: map<string, WebSocket>
    /** Frames delivered so far, oldest first. */
    var delivered: seq<Frame>

    constructor ()
      ensures activeConnections == map[] && delivered == []
    {
      activeConnections, delivered := map[], [];
    }

    /** Registers the accepted socket under `sessionId`, replacing any earlier one. */
    method Connect(socket: WebSocket, sessionId: string)
      modifies this`activeConnections
      ensures activeConnections == old(activeConnections)[sessionId := socket]
    {
      activeConnections := activeConnections[sessionId := socket];
    }

    /** Drops `sessionId` if present; other sessions are untouched. */
    method Disconnect(sessionId: string)
      modifies this`activeConnections
      ensures activeConnections == old(activeConnections) - {sessionId}
    {
      activeConnections := activeConnections - {sessionId};
    }

    /**
     * Sends only to a registered session and only a message with content.
     * `ok` says whether the socket accepted the frame; when it does not, the
     * session is dropped. `tried` says whether a send was attempted.
     */
    method SendText(message: string, sessionId: string, ok: bool) returns (tried: bool)
      modifies this`activeConnections, this`delivered
      ensures tried == (sessionId in old(activeConnections) && HasContent(message))
      ensures !tried ==> activeConnections == old(activeConnections) && delivered == old(delivered)
      ensures tried && ok ==>
        activeConnections == old(activeConnections) &&
        delivered == old(delivered) + [Frame(old(activeConnections)[sessionId], message)]
      ensures tried && !ok ==>
        activeConnections == old(activeConnections) - {sessionId} && delivered == old(delivered)
    {
      tried := sessionId in activeConnections && HasContent(message);
      if tried {
        if ok {
          delivered := delivered + [Frame(activeConnections[sessionId], message)];
        } else {
          Disconnect(sessionId);
        }
      }
    }

    /** Chooses the reply for one inbound message and makes exactly one `SendText` call with it. */
    method ProcessMessage(events: seq<Event>, streamRaises: bool, sessionId: string, ok: bool)
      returns (reply: string, tried: bool)
      modifies this`activeConnections, this`delivered
      ensures reply == ReplyFor(events, streamRaises)
      ensures tried == (sessionId in old(activeConnections) && HasContent(reply))
      ensures !tried ==> activeConnections == old(activeConnections) && delivered == old(delivered)
      ensures tried && ok ==>
        activeConnections == old(activeConnections) &&
        delivered == old(delivered) + [Frame(old(activeConnections)[sessionId], reply)]
      ensures tried && !ok ==>
        activeConnections == old(activeConnections) - {sessionId} && delivered == old(delivered)
    {
      reply := SelectReply(events, streamRaises);
      tried := SendText(reply, sessionId, ok);
    }
  }

  /** The two fixed texts always have content, so they are sent whenever the session is registered. */
  lemma FixedRepliesHaveContent()
    ensures HasContent(Fallback) && HasContent(Apology)
  {
    assert !IsPySpace(Fallback[0]);
    assert !IsPySpace(Apology[0]);
  }
}
