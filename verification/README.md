# Refugee First chat: transcript, reply layout, mock accounts and server reply channel

This project models, in Dafny, the parts of the Refugee First chat
application that carry sequential logic:

- **The chat page** (`client/src/pages/ChatPage.tsx`). The transcript is a
  list of `{role, content, pdfUrl?}` entries, together with the input box,
  the "awaiting a reply" flag and the socket. Three handlers change it:
  - `onopen` puts the welcome greeting in place;
  - `onmessage` drops blank frames, pulls the first document link out of an
    agent reply and appends one agent entry;
  - `send` appends the user's trimmed input and sends it.

  The link search is the regular expression `/(https?:\/\/[^\s]+\.pdf)/i`. It
  is modelled as a scanning matcher (`PdfLink.Search`) and proved equal to
  the leftmost-longest substring in the expression's language
  (`PdfLink.IsPdfUrl`). Agent replies are laid out line by line by a
  classifier with five rules, first match wins. It is modelled as a function
  and proved equal to a precedence table.
- **The mock account registry** (`client/src/contexts/AuthContext.tsx`). The
  registry is a list of `{id, email, password, username?}` records kept in
  local storage. The signed-in user is component state, mirrored into local
  storage. Both storage entries are fields of `Auth.AuthProvider`. Sign-in,
  sign-up, Google sign-in, password reset and sign-out are its methods.
- **The server's socket table and reply choice** (`server/web/sockets.py`).
  `ConnectionManager` maps session ids to sockets. `process_message` reads
  the agent graph's event stream until one event carries a usable
  `final_response`. It then makes exactly one guarded send: that response,
  a fixed fallback text, or a fixed apology.

Shared string primitives live in `js_text.dfy`. They cover JavaScript's
`trim`, `\s`, `startsWith`, `endsWith`, `includes`, `indexOf`, `replace`
with a string pattern, `slice`, `split` and `join`, and Python's
`str.isspace`.

The chat socket has no connection-state machine: `onclose` and `onerror`
only log, and `onopen` replaces the transcript with the greeting.

## Model

| member | source | states |
|---|---|---|
| JsText.IsJsSpace | client/src/pages/ChatPage.tsx:23-26 | JavaScript's whitespace class, used by `trim()` and by `\s`; `SpaceClassesDiffer` and `VisibleAsciiIsNotSpace` state how it relates to Python's class and to printable ASCII |
| JsText.IsPySpace | server/web/sockets.py:28 | Python's `str.isspace` class, used by `strip()` in the send guard; its contract is carried by `SpaceClassesDiffer` |
| JsText.SpaceClassesDiffer | server/web/sockets.py:28 | the two whitespace classes agree except on U+FEFF (only JavaScript) and U+001C to U+001F and U+0085 (only Python) |
| JsText.Trim | client/src/pages/ChatPage.tsx:23 | `trim()` returns a slice of its argument with no whitespace at either end, and cuts only whitespace on both sides |
| JsText.SkipSpaces | client/src/pages/ChatPage.tsx:23 | the leading cut of `trim()` lands on the first non-whitespace character, or the end |
| JsText.BackSpaces | client/src/pages/ChatPage.tsx:23 | the trailing cut of `trim()` lands just after the last non-whitespace character, or at the start |
| JsText.TrimEmptyIffBlank | client/src/pages/ChatPage.tsx:23-24 | `trim()` is empty exactly when every character is whitespace, so `!text` is the blank-frame test |
| JsText.TrimOfTrimmed | client/src/pages/ChatPage.tsx:28 | trimming is idempotent |
| JsText.StartsWith | client/src/pages/ChatPage.tsx:91 | `startsWith` (also at line 111): the string begins with the pattern; used by `ClassifyLineFollowsRules`, `ClassifyParagraph` and `StripKeepsPrefix` |
| JsText.EndsWith | client/src/pages/ChatPage.tsx:91 | `endsWith`: the string ends with the pattern; used by `ClassifyLineFollowsRules` |
| JsText.Includes | client/src/pages/ChatPage.tsx:101 | `includes`: the pattern occurs at some index; used by `ClassifyPhaseBanner` and `RemoveFirst` |
| JsText.IndexOf | client/src/pages/ChatPage.tsx:28 | the result is the first position at or after `from` where the pattern occurs, or none when it occurs nowhere |
| JsText.RemoveFirst | client/src/pages/ChatPage.tsx:28 | `replace` with a string pattern leaves the string unchanged when the pattern does not occur, and otherwise shortens it by the pattern's length; `RemoveFirstAt` states which occurrence goes |
| JsText.RemoveFirstAt | client/src/pages/ChatPage.tsx:28 | at the first occurrence `i`, the result keeps everything before `i`, and putting the pattern back at `i` gives the original: that occurrence and nothing else is removed |
| JsText.SliceFrom | client/src/pages/ChatPage.tsx:115 | `slice(2)`: everything after the first two characters; its use is stated by `ClassifyListItem` |
| JsText.Split | client/src/pages/ChatPage.tsx:87 | `split('\n')` yields at least one piece, and no piece holds the separator |
| JsText.SplitCount | client/src/pages/ChatPage.tsx:87 | there is one more piece than there are separators |
| JsText.JoinSplit | client/src/pages/ChatPage.tsx:87 | joining the pieces with the separator gives back the reply |
| JsText.SplitJoin | client/src/pages/ChatPage.tsx:87 | splitting a join of separator-free pieces gives back the pieces |
| PdfLink.MatchAt | client/src/pages/ChatPage.tsx:26 | the expression tried at one start: a match ends inside the string; `MatchIsPdfUrl` and `PdfUrlWithinMatch` state that it is a link and the longest one there |
| PdfLink.CiChar | client/src/pages/ChatPage.tsx:26 | the `/i` flag without `u`: only ASCII letters fold to lower case; used by `MatchIsPdfUrl` through `IsPdfUrl` |
| PdfLink.SchemeLength | client/src/pages/ChatPage.tsx:26 | the greedy `https?://`: the longer scheme is tried first; used by `MatchIsPdfUrl` and `LinkInWhole`, which `PdfUrlWithinMatch` rests on |
| PdfLink.RunEnd | client/src/pages/ChatPage.tsx:26 | the greedy `[^\s]+` stops at the first whitespace character or the end |
| PdfLink.LastPdfEnd | client/src/pages/ChatPage.tsx:26 | backtracking finds the last `.pdf` inside the run that leaves at least one path character; none exists when it fails |
| PdfLink.Search | client/src/pages/ChatPage.tsx:26-27 | the scan returns the first start where the expression matches; with no result, no start matches |
| PdfLink.MatchIsPdfUrl | client/src/pages/ChatPage.tsx:26 | what the matcher finds is in the language `https?://`, non-whitespace, `.pdf`, case-insensitive |
| PdfLink.PdfUrlWithinMatch | client/src/pages/ChatPage.tsx:26 | every link starting at a position ends no later than the matcher's match there, so the match is the longest |
| PdfLink.FindPdfLink | client/src/pages/ChatPage.tsx:26 | `text.match` with the link expression; its contract is carried by `FindPdfLinkIsLeftmostLongest` and `FirstOccurrenceIsMatch` |
| PdfLink.FindPdfLinkIsLeftmostLongest | client/src/pages/ChatPage.tsx:26-27 | the first match is the leftmost-longest link; `null` is returned exactly when no substring is a link |
| PdfLink.FirstOccurrenceIsMatch | client/src/pages/ChatPage.tsx:28 | the matched text first occurs where it matched, so `replace` removes the matched span itself |
| PdfLink.RemoveFirstCutsTheMatch | client/src/pages/ChatPage.tsx:28 | replacing the matched text removes exactly the matched span |
| PdfLink.ExtractPdfLink | client/src/pages/ChatPage.tsx:26-28 | the link is absent exactly when the frame holds no link, and then the body is the frame; a present link is the leftmost-longest link of the frame and the body is the frame without that span, trimmed; the body stays trimmed |
| PdfLink.ExtractCutsTheMatch | client/src/pages/ChatPage.tsx:28 | the body is the frame with exactly the matched span cut out, trimmed again |
| Chat.WelcomeEntry | client/src/pages/ChatPage.tsx:19 | the greeting is an agent entry with no link and a trimmed body |
| Chat.ReceivedEntry | client/src/pages/ChatPage.tsx:22-30 | a blank frame yields no entry; any other frame yields one agent entry whose link is absent exactly when the trimmed frame has none, and whose body is then the trimmed frame |
| Chat.ExtractKeepsWellFormed | client/src/pages/ChatPage.tsx:22-30 | every non-blank frame yields an entry, and it has a trimmed body and a link only of the expression's form |
| Chat.ReceivedEntryCutsLink | client/src/pages/ChatPage.tsx:23-30 | with a match, the appended entry carries the matched link, and its body is the trimmed frame minus that span, trimmed |
| Chat.ChatPage.constructor | client/src/pages/ChatPage.tsx:6-9 | empty transcript and input, not loading, no socket |
| Chat.ChatPage.Mount | client/src/pages/ChatPage.tsx:14-15 | the mount effect creates the socket |
| Chat.ChatPage.OnOpen | client/src/pages/ChatPage.tsx:17-20 | the transcript becomes exactly the greeting |
| Chat.ChatPage.OnMessage | client/src/pages/ChatPage.tsx:22-31 | a blank frame changes nothing; any other frame appends exactly one entry, keeps every earlier entry and clears the loading flag |
| Chat.ChatPage.SetInput | client/src/pages/ChatPage.tsx:166 | the input box holds the typed value |
| Chat.ChatPage.Send | client/src/pages/ChatPage.tsx:44-52 | blank input, a pending reply or no socket changes nothing; otherwise one user entry with the trimmed input is appended and sent, the input is cleared and loading is set |
| LineKinds.StripEmphasis | client/src/pages/ChatPage.tsx:95 | removing `**` never lengthens the line; which stars go and which stay is stated by `StripIsGlobalReplace` and the lemmas after it |
| LineKinds.StripAtFirstDoubleStar | client/src/pages/ChatPage.tsx:95 | at the first `**`, the text before it is kept, the pair is dropped and the scan resumes after the pair |
| LineKinds.StripWithoutDoubleStar | client/src/pages/ChatPage.tsx:95 | a line with no `**` is left as it is, lone stars included |
| LineKinds.StripIsGlobalReplace | client/src/pages/ChatPage.tsx:95 | `replace(/\*\*/g, '')` in terms of `indexOf('**')`: cut the first pair and continue after it, or stop when there is none |
| LineKinds.StripLeavesNoDoubleStar | client/src/pages/ChatPage.tsx:95 | after the global replace no `**` remains |
| LineKinds.StripKeepsNonStars | client/src/pages/ChatPage.tsx:95 | the replace deletes only stars: every other character survives, in order |
| LineKinds.StripKeepsStarFree | client/src/pages/ChatPage.tsx:101-105 | a star-free substring of the line is still a substring after the replace |
| LineKinds.AnnotateReply | client/src/pages/ChatPage.tsx:87-125 | a reply is laid out as one kind per line, one more than it has line feeds |
| LineKinds.ClassifyLine | client/src/pages/ChatPage.tsx:88-125 | the renderer's branch chain on the trimmed line; its contract is carried by `ClassifyLineFollowsRules` and the `Classify…` lemmas below |
| LineKinds.ClassifyLineFollowsRules | client/src/pages/ChatPage.tsx:88-125 | the classifier is the table header, phase banner, list item, paragraph, spacer, read top to bottom on the trimmed line |
| LineKinds.ClassifySpacerIffBlank | client/src/pages/ChatPage.tsx:121-125 | a line becomes a spacer exactly when it is all whitespace |
| LineKinds.ClassifyParagraph | client/src/pages/ChatPage.tsx:120-122 | a paragraph shows the trimmed line, which is non-empty and has no list marker |
| LineKinds.ClassifyListItem | client/src/pages/ChatPage.tsx:110-117 | a list item shows exactly what follows its `- ` or `• ` marker |
| LineKinds.ClassifyBanner | client/src/pages/ChatPage.tsx:90-106 | header and phase banners show the line with no `**` left and every non-star character kept in order |
| LineKinds.ClassifyPhaseBanner | client/src/pages/ChatPage.tsx:100-106 | a phase banner still shows the `HOURS` and the en dash that selected it |
| Auth.PublicView | client/src/contexts/AuthContext.tsx:69 | the `{ id, email, username }` literal (also at line 96) that leaves the password behind; used by `SignIn` and `SignInWithGoogle` |
| Auth.FindIndex | client/src/contexts/AuthContext.tsx:65 | `find` returns the first record that passes the test, or nothing when none does |
| Auth.Decimal | client/src/contexts/AuthContext.tsx:87 | the random number is printed as one or more decimal digits |
| Auth.DecimalRoundTrip | client/src/contexts/AuthContext.tsx:87 | reading the printed digits back gives the number |
| Auth.GoogleEmail | client/src/contexts/AuthContext.tsx:87 | the simulated Google address for a random number; `DecimalRoundTrip` and `GoogleEmailInjective` carry its contract |
| Auth.GoogleEmailInjective | client/src/contexts/AuthContext.tsx:87 | different random numbers give different Google addresses |
| Auth.AuthProvider.constructor | client/src/contexts/AuthContext.tsx:27-39 | on mount the stored user, if any, becomes the signed-in user |
| Auth.AuthProvider.PersistAuth | client/src/contexts/AuthContext.tsx:41-48 | the signed-in user and its stored copy are set together; None removes the stored entry |
| Auth.AuthProvider.SignIn | client/src/contexts/AuthContext.tsx:63-71 | succeeds exactly when some record has the email and password, and then signs in the first such record; a failure changes nothing; the registry is never written |
| Auth.AuthProvider.SignUp | client/src/contexts/AuthContext.tsx:73-83 | fails, changing nothing, exactly when the email is registered; otherwise appends one record at the end and signs it in; unique emails stay unique |
| Auth.AuthProvider.SignInWithGoogle | client/src/contexts/AuthContext.tsx:85-98 | reuses the record with the Google address, leaving the registry alone, or appends one with an empty password and the name `Google User`; either way that record is signed in; unique emails stay unique |
| Auth.AuthProvider.ResetPassword | client/src/contexts/AuthContext.tsx:100-108 | rejects exactly when the email is not registered, and changes nothing |
| Auth.AuthProvider.SignOut | client/src/contexts/AuthContext.tsx:110-112 | the signed-in user and its stored copy are both cleared |
| Auth.SignUpThenSignIn | client/src/contexts/AuthContext.tsx:63-83 | a record appended for a new email is what sign-in with the same email and password finds |
| Auth.FindUniqueEmail | client/src/contexts/AuthContext.tsx:75 | with unique emails, a lookup by email finds the one record that has it |
| Sockets.HasContent | server/web/sockets.py:28 | `message.strip()` is non-empty; `SendText` and `FixedRepliesHaveContent` state its use |
| Sockets.Inspect | server/web/sockets.py:44-49 | an event raises exactly when its `data` is present and not a dictionary; an answer is a non-empty string found at `data.output.final_response`, and every such string is answered |
| Sockets.ReplyFor | server/web/sockets.py:38-61 | the reply is never empty, and is the apology, the fallback, or the answer of one of the events |
| Sockets.SelectReply | server/web/sockets.py:38-57 | the stream loop yields the reply the reference definition gives, and that reply is never empty |
| Sockets.ReplyForPicksFirstAnswer | server/web/sockets.py:44-61 | the first usable `final_response` wins; an event that raises first gives the apology; a stream with none gives the fallback, or the apology if the stream raised |
| Sockets.FixedRepliesHaveContent | server/web/sockets.py:53-61 | the fallback and the apology pass the `strip()` guard, so they are sent whenever the session is registered |
| Sockets.ConnectionManager.constructor | server/web/sockets.py:14-15 | the table starts empty |
| Sockets.ConnectionManager.Connect | server/web/sockets.py:17-19 | the session maps to the socket, replacing any earlier socket for it |
| Sockets.ConnectionManager.Disconnect | server/web/sockets.py:22-23 | only that session is removed; an absent session leaves the table as it was |
| Sockets.ConnectionManager.SendText | server/web/sockets.py:26-32 | a send is tried exactly when the session is registered and the message has non-whitespace; a delivered frame goes to that session's socket; a failed send removes only that session; no attempt changes nothing |
| Sockets.ConnectionManager.ProcessMessage | server/web/sockets.py:36-61 | the selected reply goes through exactly one guarded send, with the same effects as that send |

## Left out

- The socket's `onclose` and `onerror` only log, and the effect's cleanup only closes the socket. None of them touches the transcript, so they are not modelled.
- Chat.ChatPage.Mount: the socket address and the session id come from the clock and `Math.random`. The model only records that a socket exists.
- Chat.ChatPage.Send: the frame handed to the socket is recorded in a `sent` list. Delivery, and the buttons and keys that trigger `send`, are not modelled.
- Strings are sequences of Unicode scalar values, not of UTF-16 code units. JavaScript `trim`, `\s` and `slice(2)` therefore agree with the model except on text holding astral-plane characters.
- Only the ASCII letters fold under the `/i` flag. This is what the expression's non-unicode mode does.
- Rendering, styling, icons and scrolling to the newest entry are left out. A line's kind and display text are modelled; the JSX around them is not.
- Auth.AuthProvider.constructor: a stored user that fails to parse is not modelled, and neither is a user list that fails to parse (which `readUsers` turns into `[]`). Storage holds values, not JSON text.
- Auth.AuthProvider.SignUp: `generateId()` depends on the clock and `Math.random`, so the new id is a parameter. `SignInWithGoogle` takes its id the same way.
- Auth.AuthProvider.SignInWithGoogle: the random number is a parameter below 10000, the range of `Math.floor(Math.random() * 10000)`.
- Auth.AuthProvider.ResetPassword: no reset link is sent; `resetPassword` only pretends to send one, as its own comment says.
- The agent graph (`create_graph`, `astream_events`) is not part of this model. Its stream is a given sequence of events, ending normally or with an exception.
- Sockets.ConnectionManager.SendText: the socket's `send_text` is an input that succeeds or fails. Accepting the socket, and logging, are left out.
- Sockets.ConnectionManager.Connect: the `websocket.accept()` handshake is left out.
- Concurrency is not modelled. The receive loop in `server/web/routes.py` starts `process_message` as a separate task, so other sessions can change the table between events. Here each method is atomic.
- Sockets.Inspect: event values are strings, dictionaries, or "other". An `event` that is not a dictionary is not modelled. The stream yields dictionaries.
