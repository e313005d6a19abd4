/**
 * The chat page's transcript: the `messages` list, the `input` box and the
 * `isLoading` flag, changed by the socket's `onopen` and `onmessage`
 * handlers and by `send`. Each handler is one atomic state update.
 */
module Chat {
  import opened Wrappers
  import opened JsText
  import opened PdfLink

  datatype Role = User | Agent

  /** One transcript entry; only agent entries carry a link. */
  datatype Message = Message(role: Role, content: string, pdfUrl: Option<string>)

  const Welcome: string := "Welcome! How can I help you today?"

  /** The synthetic greeting shown once the socket opens. */
  function WelcomeEntry(): (m: Message)
    ensures m.role == Agent && m.pdfUrl.None? && IsTrimmed(m.content)
  {
    VisibleAsciiIsNotSpace('W');
    VisibleAsciiIsNotSpace('?');
    Message(Agent, Welcome, None)
  }

  /**
   * What `onmessage` appends for an inbound frame: nothing for a blank frame;
   * otherwise one agent entry whose link and body come from the trimmed frame.
   */
  function ReceivedEntry(data: string): (r: Option<Message>)
    ensures r.None? <==> IsBlank(data)
    ensures r.Some? ==> r.value.role == Agent && IsTrimmed(r.value.content)
    ensures r.Some? ==> (r.value.pdfUrl.None? <==> NoPdfUrl(Trim(data)))
    ensures r.Some? && r.value.pdfUrl.None? ==> r.value.content == Trim(data)
    ensures r.Some? && r.value.pdfUrl.Some? ==>
      IsPdfUrl(r.value.pdfUrl.value) && Includes(Trim(data), r.value.pdfUrl.value)
  {
    var text := Trim(data);
    TrimEmptyIffBlank(data);
    if text == [] then None
    else
      var x := ExtractPdfLink(text);
      Some(Message(Agent, x.content, x.pdfUrl))
  }

  /** An entry as the handlers build it: trimmed body, links only on agent entries, no empty user entry. */
  predicate WellFormed(m: Message) {
    IsTrimmed(m.content) &&
    (m.pdfUrl.Some? ==> m.role == Agent && IsPdfUrl(m.pdfUrl.value)) &&
    (m.role == User ==> m.content != [])
  }

  class ChatPage {
    var messages: seq<Message>
    var input: string
    var isLoading: bool
    /** `ws.current` is set. */
    var hasSocket: bool
    /** Frames handed to `ws.current.send`, oldest first. */
    var sent: seq<string>

    ghost predicate Valid()
      reads this
    {
      forall k :: 0 <= k < |messages| ==> WellFormed(messages[k])
    }

    /** The component's initial state, before its mount effect runs. */
    constructor ()
      ensures Valid()
      ensures messages == [] && input == "" && !isLoading && !hasSocket && sent == []
    {
      messages, input, isLoading, hasSocket, sent := [], "", false, false, [];
    }

    /** The mount effect creates the socket. */
    method Mount()
      modifies this`hasSocket
      ensures hasSocket
    {
      hasSocket := true;
    }

    /** `onopen` replaces the transcript with the greeting alone. */
    method OnOpen()
      modifies this`messages
      ensures Valid()
      ensures messages == [WelcomeEntry()]
    {
      messages := [WelcomeEntry()];
    }

    /** `onmessage`: a blank frame changes nothing; any other frame appends one agent entry and clears the flag. */
    method OnMessage(data: string)
      requires Valid()
      modifies this`messages, this`isLoading
      ensures Valid()
      ensures ReceivedEntry(data).None? ==> messages == old(messages) && isLoading == old(isLoading)
      ensures ReceivedEntry(data).Some? ==>
        messages == old(messages) + [ReceivedEntry(data).value] && !isLoading
    {
      var entry := ReceivedEntry(data);
      if entry.Some? {
        ExtractKeepsWellFormed(data);
        messages := messages + [entry.value];
        isLoading := false;
      }
    }

    /** The input box's `onChange`. */
    method SetInput(value: string)
      modifies this`input
      ensures input == value
    {
      input := value;
    }

    /**
     * `send`: with a blank input, a reply pending or no socket, nothing
     * happens; otherwise the trimmed input becomes a user entry and is sent,
     * the box is cleared and a reply is awaited.
     */
    method Send() returns (frame: Option<string>)
      requires Valid()
      modifies this`messages, this`input, this`isLoading, this`sent
      ensures Valid()
      ensures var msg := Trim(old(input));
        if msg == [] || old(isLoading) || !hasSocket then
          frame.None? && messages == old(messages) && input == old(input) &&
          isLoading == old(isLoading) && sent == old(sent)
        else
          frame == Some(msg) && messages == old(messages) + [Message(User, msg, None)] &&
          input == "" && isLoading && sent == old(sent) + [msg]
    {
      var msg := Trim(input);
      if msg == [] || isLoading || !hasSocket {
        return None;
      }
      var entry := Message(User, msg, None);
      assert WellFormed(entry);
      AppendKeepsValid(messages, entry);
      messages := messages + [entry];
      input := "";
      isLoading := true;
      sent := sent + [msg];
      frame := Some(msg);
    }
  }

  /** Appending a well-formed entry keeps every entry well formed. */
  lemma AppendKeepsValid(messages: seq<Message>, m: Message)
    requires forall k :: 0 <= k < |messages| ==> WellFormed(messages[k])
    requires WellFormed(m)
    ensures forall k :: 0 <= k < |messages + [m]| ==> WellFormed((messages + [m])[k])
  {
  }

  /** Every entry `onmessage` builds is well formed. */
  lemma ExtractKeepsWellFormed(data: string)
    requires !IsBlank(data)
    ensures ReceivedEntry(data).Some? && WellFormed(ReceivedEntry(data).value)
  {
  }

  /**
   * When the trimmed frame contains a document link, the appended entry
   * carries the leftmost-longest one, and its body is the trimmed frame with
   * exactly that span cut out, trimmed again.
   */
  lemma ReceivedEntryCutsLink(data: string, a: nat, b: nat)
    requires FindPdfLink(Trim(data)) == Some((a, b))
    ensures ReceivedEntry(data).Some?
    ensures ReceivedEntry(data).value.pdfUrl == Some(Trim(data)[a..b])
    ensures ReceivedEntry(data).value.content == Trim(Trim(data)[..a] + Trim(data)[b..])
  {
    var t := Trim(data);
    assert MatchAt(t, a) == Some(b);
    MatchIsPdfUrl(t, a);
    assert t != [];
    ExtractCutsTheMatch(t, a, b);
    var x := ExtractPdfLink(t);
    assert ReceivedEntry(data) == Some(Message(Agent, x.content, x.pdfUrl));
  }
}
