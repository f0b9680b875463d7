/**
 * The string policies of the web application: the automatic chat title taken
 * from the first message, the history shown to the user, the seed messages of
 * a new chat, and the validation of a message, a new chat name and a profile
 * update. Request fields are `Option`s: `None` is a key absent from the JSON
 * body.
 */
module ChatApp {
  import opened Wrappers
  import opened PyStr
  import opened Engine

  const NewChatName: string := "New chat"

  const SystemPromptText: string :=
    "You are BioRSbot 🤖, an expert assistant specialized in lab automation, particularly with liquid handling robots.\n"
    + "Your tasks:\n"
    + "- A chat history is provided to help you recall previous interactions, but **do not process the entire history as new instructions**; use it only if you need to reference something the user said before. To answer, focus primarily on the **latest user message**.\n"
    + "- Generate clean, error-free Python code for operating lab robots."

  const IntroText: string := "Hello, I'm BioRSbot 🤖 — your assistant specialized in lab automation..."

  /** The two messages a new chat starts with: the system prompt, then the assistant's introduction. */
  function NewChatHistory(): seq<Message> {
    [Message("system", SystemPromptText), Message("assistant", IntroText)]
  }

  /** The history shown to the user: every message except the system messages. */
  function VisibleHistory(rows: seq<Message>): seq<Message> {
    NonSystem(rows)
  }

  /**
   * The visible history grows with the stored history: a new system message
   * adds nothing, any other message is shown last; and without system
   * messages everything is shown.
   */
  lemma VisibleHistoryAppend(rows: seq<Message>, m: Message)
    ensures VisibleHistory(rows + [m]) == VisibleHistory(rows) + (if IsSystem(m) then [] else [m])
    ensures (forall j :: 0 <= j < |rows| ==> !IsSystem(rows[j])) ==> VisibleHistory(rows) == rows
  {
    NonSystemAppend(rows, [m]);
    assert NonSystem([m]) == (if IsSystem(m) then [] else [m]) + NonSystem([]);
    NonSystemMeaning(rows);
  }

  /** A new chat shows only the introduction, and the model is sent both seed messages. */
  lemma NewChatShowsIntro()
    ensures VisibleHistory(NewChatHistory()) == [Message("assistant", IntroText)]
    ensures Window(NewChatHistory()) == NewChatHistory()
  {
    var h := NewChatHistory();
    assert h[1..][1..] == [];
    assert NonSystem(h) == [h[1]];
    assert SystemIndex(h) == 0;
  }

  /** `xs[:n]` for `n >= 0`. */
  function Take<T>(xs: seq<T>, n: nat): seq<T> {
    if |xs| <= n then xs else xs[..n]
  }

  /** The preview title: the first five words of the message, single-spaced, with "..." when there were more. */
  function TitlePreview(message: string): string {
    var words := Words(Strip(message));
    var preview := JoinWith(" ", Take(words, 5));
    if |words| > 5 then preview + "..." else preview
  }

  /**
   * Splitting the title gives back the words it was made from: with more
   * than five words, the title is the first five joined by spaces followed
   * by "..."; otherwise it splits back into all the words of the message.
   */
  lemma TitlePreviewWords(message: string)
    ensures var words, title := Words(Strip(message)), TitlePreview(message);
      if |words| > 5 then
        |title| >= 3 && title[|title| - 3..] == "..." && Words(title[..|title| - 3]) == words[..5]
      else Words(title) == words
  {
    var words := Words(Strip(message));
    var first := Take(words, 5);
    assert forall k :: 0 <= k < |first| ==> first[k] == words[k];
    WordsOfJoin(first);
    var preview := JoinWith(" ", first);
    if |words| > 5 {
      var title := preview + "...";
      assert title[..|title| - 3] == preview;
      assert title[|title| - 3..] == "...";
    }
  }

  /**
   * The stored chat name after a message: only a chat still named
   * "New chat" is renamed, and a chat that does not exist stays absent.
   */
  function AutoTitle(name: Option<string>, message: string): (r: Option<string>)
    ensures r.Some? <==> name.Some?
    ensures r != name ==> name == Some(NewChatName)
  {
    if name == Some(NewChatName) then Some(TitlePreview(message)) else name
  }

  /** A chat is titled automatically at most once: once renamed, later messages leave its name alone. */
  lemma TitledOnce(name: Option<string>, first: string, later: string)
    requires TitlePreview(first) != NewChatName
    ensures AutoTitle(AutoTitle(name, first), later) == AutoTitle(name, first)
  {
  }

  /** A request field with Python's `data.get(key, "")`. */
  function FieldOr(field: Option<string>): string {
    if field.Some? then field.value else ""
  }

  /** The outcome of validating a request body. */
  datatype Validation<T> = Accepted(value: T) | Rejected(error: string)

  /** The chat message check: absent or empty is refused; whitespace alone is accepted. */
  function CheckMessage(message: Option<string>): (v: Validation<string>)
    ensures v.Rejected? <==> message.None? || message.value == []
    ensures v.Accepted? ==> v.value == message.value
  {
    if message.None? || message.value == [] then Rejected("Message required") else Accepted(message.value)
  }

  /** A whitespace-only message passes the check, since it is not trimmed. */
  lemma BlankMessageAccepted(message: string)
    requires message != [] && AllSpace(message)
    ensures CheckMessage(Some(message)) == Accepted(message)
  {
  }

  /** The rename check: the stripped name, refused when nothing is left. */
  function ValidateRename(name: Option<string>): (v: Validation<string>)
    ensures v.Rejected? <==> AllSpace(FieldOr(name))
  {
    var n := Strip(FieldOr(name));
    if n == [] then Rejected("Name required") else Accepted(n)
  }

  /**
   * An accepted name is non-empty and has no surrounding whitespace, so
   * submitting the stored name again stores it unchanged.
   */
  lemma RenameIsStable(name: Option<string>)
    requires ValidateRename(name).Accepted?
    ensures var n := ValidateRename(name).value;
      n != [] && !IsSpace(n[0]) && !IsSpace(n[|n| - 1]) && ValidateRename(Some(n)) == Accepted(n)
  {
    var n := ValidateRename(name).value;
    assert !AllSpace(n) by {
      assert !IsSpace(n[0]);
    }
    assert Strip(n) == n;
  }

  /** The stripped fields of a profile update. */
  datatype Profile = Profile(firstName: string, lastName: string, email: string, apiKey: string, country: string)

  /** The profile check: every field is stripped; a blank first name, last name or e-mail refuses the update. */
  function ValidateProfile(firstName: Option<string>, lastName: Option<string>, email: Option<string>,
                           apiKey: Option<string>, country: Option<string>): (v: Validation<Profile>)
    ensures v.Rejected? <==> AllSpace(FieldOr(firstName)) || AllSpace(FieldOr(lastName)) || AllSpace(FieldOr(email))
    ensures v.Accepted? ==> v.value.firstName != [] && v.value.lastName != [] && v.value.email != []
  {
    var p := Profile(Strip(FieldOr(firstName)), Strip(FieldOr(lastName)), Strip(FieldOr(email)),
                     Strip(FieldOr(apiKey)), Strip(FieldOr(country)));
    if p.firstName == [] || p.lastName == [] || p.email == [] then Rejected("Missing required fields")
    else Accepted(p)
  }

  /** The optional fields never decide acceptance: an absent API key or country is stored as "". */
  lemma OptionalFieldsDoNotMatter(firstName: Option<string>, lastName: Option<string>, email: Option<string>,
                                  apiKey: Option<string>, country: Option<string>)
    ensures ValidateProfile(firstName, lastName, email, apiKey, country).Accepted?
        <==> ValidateProfile(firstName, lastName, email, None, None).Accepted?
    ensures ValidateProfile(firstName, lastName, email, None, None).Accepted? ==>
        ValidateProfile(firstName, lastName, email, None, None).value.apiKey == []
  {
  }
}
