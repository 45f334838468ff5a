/** The home page `app/page.tsx`: the state the component keeps, the
    loading and typing effects, the terminal input handlers, the share
    text and the choice of what the fact panel shows. React state becomes
    the fields of one object; each handler and each effect step is a
    method that updates them. */
module Page {
  import opened Wrappers
  import opened Text
  import Calendar
  import opened Route
  import Client
  import Browser

  /** The input limit: `isMobile ? 20 : 50`. */
  function MaxChars(isMobile: bool): nat {
    if isMobile then 20 else 50
  }

  /** From this length on the page shows "length/limit" under the input. */
  function WarnAt(isMobile: bool): nat {
    if isMobile then 18 else 45
  }

  /** `target.selectionStart || 0`: a missing selection puts the cursor at 0. */
  function Caret(selectionStart: Option<nat>): (k: nat)
    ensures selectionStart.Some? ==> k == selectionStart.value
    ensures selectionStart.None? ==> k == 0
  {
    if selectionStart.Some? then selectionStart.value else 0
  }

  const LoadError: string := "Error al cargar la efeméride del día"

  /** The text typed into the fact panel: "<date> de <year>:", a blank line,
      then the event. */
  function TypingText(d: Client.Display): (text: string)
    ensures |text| >= |d.date| + |d.event|
    ensures text[..|d.date|] == d.date
    ensures text[|d.date|..|text| - |d.event|] == " de " + Calendar.IntToString(d.year) + ":\n\n"
    ensures text[|text| - |d.event|..] == d.event
  {
    d.date + " de " + Calendar.IntToString(d.year) + ":\n\n" + d.event
  }

  /** What the fact panel shows, in the order `renderEphemerisContent`
      checks: loading first, then a non-empty error, then a missing fact,
      and otherwise the text typed so far with a block cursor while typing. */
  datatype Panel = Loading | ErrorPanel(message: string) | NoFact | FactPanel(text: string, cursor: bool)

  /** JavaScript truthiness of the nullable error string. */
  predicate IsSetError(error: Option<string>) {
    error.Some? && error.value != ""
  }

  function RenderContent(isLoading: bool, error: Option<string>, fact: Option<Ephemeris>,
                         displayText: string, isTyping: bool): (p: Panel)
    ensures p.Loading? <==> isLoading
    ensures p.ErrorPanel? <==> !isLoading && IsSetError(error)
    ensures p.ErrorPanel? ==> p.message == error.value
    ensures p.NoFact? <==> !isLoading && !IsSetError(error) && fact.None?
    ensures p.FactPanel? <==> !isLoading && !IsSetError(error) && fact.Some?
    ensures p.FactPanel? ==> p.text == displayText && p.cursor == isTyping
  {
    if isLoading then Loading
    else if IsSetError(error) then ErrorPanel(error.value)
    else if fact.None? then NoFact
    else FactPanel(displayText, isTyping)
  }

  /** Once loading is over without an error, the panel shows the fact when
      the client got one and the "no fact" notice otherwise. */
  lemma LoadedPanel(reply: Client.Reply, displayText: string, isTyping: bool)
    ensures var p := RenderContent(false, None, Client.Interpret(reply), displayText, isTyping);
            (p.FactPanel? <==> Client.Interpret(reply).Some?)
            && (p.NoFact? <==> Client.Interpret(reply).None?)
  {
  }

  /** The share button is rendered only for a loaded fact. */
  predicate ShareVisible(fact: Option<Ephemeris>, isLoading: bool) {
    fact.Some? && !isLoading
  }

  /** `handleShareX`'s cut: an event longer than 200 characters keeps its
      first 197 and gains "...", so the result is exactly 200 long. */
  function TruncateForShare(event: string): (text: string)
    ensures |text| <= 200
    ensures text == event <==> |event| <= 200
    ensures |event| > 200 ==> |text| == 200 && text[..197] == event[..197] && text[197..] == "..."
  {
    if |event| > 200 then event[..197] + "..." else event
  }

  /** Cutting twice is cutting once. */
  lemma TruncateIsIdempotent(event: string)
    ensures TruncateForShare(TruncateForShare(event)) == TruncateForShare(event)
  {
  }

  const TweetHead: string := "\U{1F4BB} "
  const TweetTail: string := "\n\n\U{2139}\U{FE0F} Cada día una nueva efeméride en "

  /** The tweet: a laptop emoji, the (possibly cut) event, a blank line
      and the information line. */
  function TweetText(event: string): (tweet: string)
    ensures |tweet| == |TweetHead| + |TruncateForShare(event)| + |TweetTail|
    ensures tweet[..|TweetHead|] == TweetHead
    ensures tweet[|TweetHead|..|TweetHead| + |TruncateForShare(event)|] == TruncateForShare(event)
    ensures tweet[|tweet| - |TweetTail|..] == TweetTail
  {
    TweetHead + TruncateForShare(event) + TweetTail
  }

  /** `handleShareX`: nothing without a fact, otherwise the tweet for the
      event. Formatting the fact first leaves its event as it is (see
      `ShareUsesFormattedEvent`), and only the event is shared, so the
      date need not be one the calendar can format. */
  function ShareText(fact: Option<Ephemeris>): (tweet: Option<string>)
    ensures tweet.Some? <==> fact.Some?
    ensures fact.Some? ==> tweet == Some(TweetText(fact.value.event))
  {
    if fact.None? then None else Some(TweetText(fact.value.event))
  }

  /** Where the date can be formatted, the tweet is built from the event
      of the formatted fact, as `handleShareX` does. */
  lemma ShareUsesFormattedEvent(e: Ephemeris)
    requires Client.CanFormat(e)
    ensures ShareText(Some(e)) == Some(TweetText(Client.FormatForDisplay(e).event))
    ensures ShareText(Some(e)).value[..|TweetHead|] == TweetHead
  {
  }

  /** Whenever the share button is rendered, pressing it has a tweet to
      open, carrying the (possibly cut) event. */
  lemma ShareButtonShares(fact: Option<Ephemeris>, isLoading: bool)
    requires ShareVisible(fact, isLoading)
    ensures ShareText(fact).Some?
    ensures var t := ShareText(fact).value;
            t[|TweetHead|..|TweetHead| + |TruncateForShare(fact.value.event)|] == TruncateForShare(fact.value.event)
  {
  }

  /** The terminal line drawn around the block cursor:
      `input.slice(0, cursor)` and `input.slice(cursor)`. Whatever the
      cursor, the two parts put together give the input back, and the
      cursor sits at the clamped position. */
  function SplitAtCursor(input: string, cursor: int): (parts: (string, string))
    ensures parts.0 + parts.1 == input
    ensures 0 <= cursor <= |input| ==> |parts.0| == cursor
    ensures cursor > |input| ==> parts.0 == input && parts.1 == ""
  {
    (SliceTo(input, cursor), SliceFrom(input, cursor))
  }

  /** The "length/limit" hint shown near the end of the allowed length;
      both the threshold and the number shown are JavaScript lengths,
      in UTF-16 code units. */
  function LimitHint(input: string, isMobile: bool): (hint: Option<string>)
    ensures hint.Some? <==> Utf16Length(input) >= WarnAt(isMobile)
    ensures hint.Some? ==>
      hint.value == Calendar.NatToString(Utf16Length(input)) + "/" + Calendar.NatToString(MaxChars(isMobile))
  {
    var n := Utf16Length(input);
    if n >= WarnAt(isMobile) then
      Some(Calendar.NatToString(n) + "/" + Calendar.NatToString(MaxChars(isMobile)))
    else None
  }

  /** For an input the page accepted, a hint is shown only once the input
      is close to its limit, and the number it shows reads back as a
      length no larger than the limit. */
  lemma HintBeforeLimit(input: string, isMobile: bool)
    requires Utf16Length(input) <= MaxChars(isMobile)
    ensures LimitHint(input, isMobile).Some? ==>
              Calendar.DecimalValue(Calendar.NatToString(Utf16Length(input))) <= MaxChars(isMobile)
    ensures Utf16Length(input) < WarnAt(isMobile) ==> LimitHint(input, isMobile).None?
  {
    Calendar.NatToStringRoundTrip(Utf16Length(input));
  }

  /** The component's state. `fullText` and `index` are the locals of the
      typing effect's interval, kept here because the interval outlives
      the effect's call. */
  class Page {
    var isLoading: bool
    var error: Option<string>
    var fact: Option<Ephemeris>
    var fullText: string
    var index: nat
    var displayText: string
    var isTyping: bool
    var closeCommand: string
    var isMobile: bool
    var terminalInput: string
    var cursorPosition: nat

    /** The typed text is always the first `index` characters of the full
        text, typing only stops once all of it is shown, the input never
        exceeds its limit and the cursor sits inside it. */
    ghost predicate Valid()
      reads this
    {
      index <= |fullText| && displayText == fullText[..index]
      && (!isTyping ==> index == |fullText|)
      && Utf16Length(terminalInput) <= MaxChars(isMobile)
      && cursorPosition <= |terminalInput|
    }

    function Render(): Panel
      reads this
    {
      RenderContent(isLoading, error, fact, displayText, isTyping)
    }

    /** The first render and the synchronous part of the mount effect: the
        close-tab shortcut and the mobile flag come from the browser,
        loading starts with no error and no fact. */
    constructor(w: Browser.Window)
      ensures Valid()
      ensures isLoading && error.None? && fact.None?
      ensures displayText == "" && isTyping
      ensures closeCommand == Browser.GetCloseTabCommand(w)
      ensures isMobile == Browser.GetOSInfo(w).isMobile
      ensures terminalInput == "" && cursorPosition == 0
      ensures Render() == Loading
    {
      isLoading := true;
      error := None;
      fact := None;
      fullText := "";
      index := 0;
      displayText := "";
      isTyping := true;
      closeCommand := Browser.GetCloseTabCommand(w);
      isMobile := Browser.GetOSInfo(w).isMobile;
      terminalInput := "";
      cursorPosition := 0;
    }

    /** `loadTodayEphemeris` when the client call returns: the fact is what
        the client made of the reply, the error is cleared and loading ends. */
    method FinishLoading(reply: Client.Reply)
      requires Valid()
      modifies this
      ensures Valid()
      ensures fact == Client.Interpret(reply) && error.None? && !isLoading
      ensures fullText == old(fullText) && index == old(index) && displayText == old(displayText)
      ensures isTyping == old(isTyping) && closeCommand == old(closeCommand) && isMobile == old(isMobile)
      ensures terminalInput == old(terminalInput) && cursorPosition == old(cursorPosition)
      ensures Render().FactPanel? || Render().NoFact?
    {
      error := None;
      fact := Client.Interpret(reply);
      isLoading := false;
    }

    /** `loadTodayEphemeris` when the client call throws: the error message
        is set and loading ends; the fact is left as it was. */
    method FailLoading()
      requires Valid()
      modifies this
      ensures Valid()
      ensures error == Some(LoadError) && !isLoading
      ensures fact == old(fact) && fullText == old(fullText) && index == old(index)
      ensures displayText == old(displayText) && isTyping == old(isTyping)
      ensures closeCommand == old(closeCommand) && isMobile == old(isMobile)
      ensures terminalInput == old(terminalInput) && cursorPosition == old(cursorPosition)
      ensures Render() == ErrorPanel(LoadError)
    {
      error := Some(LoadError);
      isLoading := false;
    }

    /** The typing effect, run when the fact or the loading flag change:
        with a loaded fact it formats it, clears the panel and starts
        typing; otherwise it does nothing. */
    method StartTyping()
      requires Valid()
      requires fact.Some? ==> Client.CanFormat(fact.value)
      modifies this
      ensures Valid()
      ensures isLoading == old(isLoading) && error == old(error) && fact == old(fact)
      ensures old(fact).Some? && !old(isLoading) ==>
        fullText == TypingText(Client.FormatForDisplay(fact.value))
        && index == 0 && displayText == "" && isTyping
      ensures !(old(fact).Some? && !old(isLoading)) ==>
        fullText == old(fullText) && index == old(index)
        && displayText == old(displayText) && isTyping == old(isTyping)
      ensures closeCommand == old(closeCommand) && isMobile == old(isMobile)
      ensures terminalInput == old(terminalInput) && cursorPosition == old(cursorPosition)
    {
      if fact.None? || isLoading {
        return;
      }
      fullText := TypingText(Client.FormatForDisplay(fact.value));
      index := 0;
      displayText := "";
      isTyping := true;
    }

    /** One 30 ms tick of the typing interval: show one more character,
        or, when all are shown, stop typing. */
    method Tick()
      requires Valid() && isTyping
      modifies this
      ensures Valid()
      ensures old(index) < |fullText| ==> index == old(index) + 1 && isTyping
      ensures old(index) == |fullText| ==> index == old(index) && !isTyping
      ensures fullText == old(fullText)
      ensures isLoading == old(isLoading) && error == old(error) && fact == old(fact)
      ensures closeCommand == old(closeCommand) && isMobile == old(isMobile)
      ensures terminalInput == old(terminalInput) && cursorPosition == old(cursorPosition)
    {
      if index < |fullText| {
        displayText := SliceTo(fullText, index + 1);
        index := index + 1;
      } else {
        isTyping := false;
      }
    }

    /** The interval run until it clears itself: one tick per character and
        a last one that stops typing, after which the whole text is shown. */
    method TypeOut() returns (ticks: nat)
      requires Valid() && isTyping
      modifies this
      ensures Valid()
      ensures fullText == old(fullText) && displayText == fullText && !isTyping
      ensures ticks == |fullText| - old(index) + 1
      ensures isLoading == old(isLoading) && error == old(error) && fact == old(fact)
      ensures closeCommand == old(closeCommand) && isMobile == old(isMobile)
      ensures terminalInput == old(terminalInput) && cursorPosition == old(cursorPosition)
    {
      ticks := 0;
      while isTyping
        invariant Valid()
        invariant fullText == old(fullText) && old(index) <= index
        invariant isTyping ==> ticks == index - old(index)
        invariant !isTyping ==> ticks == |fullText| - old(index) + 1
        invariant isLoading == old(isLoading) && error == old(error) && fact == old(fact)
        invariant closeCommand == old(closeCommand) && isMobile == old(isMobile)
        invariant terminalInput == old(terminalInput) && cursorPosition == old(cursorPosition)
        decreases |fullText| - index + (if isTyping then 1 else 0)
      {
        Tick();
        ticks := ticks + 1;
      }
    }

    /** `handleInputChange`: a value within the limit replaces the input and
        moves the cursor to the selection; a longer one is ignored. The
        limit is on JavaScript's length, in UTF-16 code units. */
    method InputChange(newValue: string, selectionStart: Option<nat>)
      requires Valid()
      requires selectionStart.Some? ==> selectionStart.value <= |newValue|
      modifies this
      ensures Valid()
      ensures Utf16Length(newValue) <= MaxChars(isMobile) ==>
        terminalInput == newValue && cursorPosition == Caret(selectionStart)
      ensures Utf16Length(newValue) > MaxChars(isMobile) ==>
        terminalInput == old(terminalInput) && cursorPosition == old(cursorPosition)
      ensures isLoading == old(isLoading) && error == old(error) && fact == old(fact)
      ensures fullText == old(fullText) && index == old(index)
      ensures displayText == old(displayText) && isTyping == old(isTyping)
      ensures closeCommand == old(closeCommand) && isMobile == old(isMobile)
    {
      if Utf16Length(newValue) <= MaxChars(isMobile) {
        terminalInput := newValue;
        cursorPosition := Caret(selectionStart);
      }
    }

    /** `handleCursorMoveKeyboard` and `handleCursorMoveMouse`: the cursor
        follows the input's selection. */
    method MoveCursor(selectionStart: Option<nat>)
      requires Valid()
      requires selectionStart.Some? ==> selectionStart.value <= |terminalInput|
      modifies this
      ensures Valid()
      ensures cursorPosition == Caret(selectionStart)
      ensures terminalInput == old(terminalInput)
      ensures isLoading == old(isLoading) && error == old(error) && fact == old(fact)
      ensures fullText == old(fullText) && index == old(index)
      ensures displayText == old(displayText) && isTyping == old(isTyping)
      ensures closeCommand == old(closeCommand) && isMobile == old(isMobile)
    {
      cursorPosition := Caret(selectionStart);
    }

    /** `handleTerminalKeyPress`: Enter clears the input and puts the cursor
        at 0; any other key changes nothing. */
    method KeyPress(key: string)
      requires Valid()
      modifies this
      ensures Valid()
      ensures key == "Enter" ==> terminalInput == "" && cursorPosition == 0
      ensures key != "Enter" ==>
        terminalInput == old(terminalInput) && cursorPosition == old(cursorPosition)
      ensures isLoading == old(isLoading) && error == old(error) && fact == old(fact)
      ensures fullText == old(fullText) && index == old(index)
      ensures displayText == old(displayText) && isTyping == old(isTyping)
      ensures closeCommand == old(closeCommand) && isMobile == old(isMobile)
    {
      if key == "Enter" {
        terminalInput := "";
        cursorPosition := 0;
      }
    }
  }

  lemma LinuxDisplayTypesOut()
    ensures TypingText(Client.Display("25 de agosto", 1991, "X")) == "25 de agosto de 1991:\n\nX"
  {
    assert Calendar.NatToString(1) == "1";
    assert Calendar.NatToString(19) == "19";
    assert Calendar.NatToString(199) == "199";
    assert Calendar.IntToString(1991) == "1991";
  }

  /** The typed text for the Linux announcement row. */
  lemma LinuxRowTypesOut()
    ensures TypingText(Client.FormatForDisplay(Client.LinuxRow)) == "25 de agosto de 1991:\n\nX"
  {
    Client.LinuxRowShowsHistoricalDate("2025-06-25");
    LinuxDisplayTypesOut();
  }

  /** From mount to the end of typing: a page that loads a fact types out
      exactly the formatted text and leaves it on the panel without a
      cursor. */
  method LoadAndType(w: Browser.Window, reply: Client.Reply) returns (page: Page)
    requires Client.Interpret(reply).Some? ==> Client.CanFormat(Client.Interpret(reply).value)
    ensures page.Valid()
    ensures page.Render().Loading? == false
    ensures Client.Interpret(reply).None? ==> page.Render() == NoFact
    ensures Client.Interpret(reply).Some? ==>
      page.Render() == FactPanel(TypingText(Client.FormatForDisplay(Client.Interpret(reply).value)), false)
  {
    page := new Page(w);
    page.FinishLoading(reply);
    page.StartTyping();
    if page.fact.Some? {
      var _ := page.TypeOut();
    }
  }
}
