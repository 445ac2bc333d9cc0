/** The deck form of `ui/components/deck-manager.js`: creating a deck from the
    name field, and saving a renamed deck from the inline editor. The DOM is
    reduced to the field's text and the error line; what the form sends to
    the bridge is a list of events. */
module DeckManager {
  import opened Wrappers
  import opened Strings
  import Api

  const CreateError: string := "Le nom du deck ne peut pas être vide"
  const RenameError: string := "Le nom ne peut pas être vide"

  /** What the form sends out. */
  datatype Event = CreateRequested(name: string) | UpdateRequested(deckId: int, name: string)

  /** The name field (`None` when the element is missing) and the error line
      (`None` when hidden). */
  datatype Form = Form(input: Option<string>, error: Option<string>)

  /** `_handleCreate`: an empty or blank name shows the error and sends
      nothing; any other name clears the error, sends its trimmed text and
      empties the field. */
  function HandleCreate(f: Form): (r: (Form, seq<Event>))
    ensures var name := f.input.GetOr("");
      IsBlank(name, JavaScript) ==> r == (f.(error := Some(CreateError)), [])
    ensures var name := f.input.GetOr("");
      !IsBlank(name, JavaScript) ==> r == (Form(f.input.(value := ""), None), [CreateRequested(Strip(name, JavaScript))])
  {
    var name := f.input.GetOr("");
    StripEmptyIffBlank(name, JavaScript);
    if name == "" || Strip(name, JavaScript) == "" then (f.(error := Some(CreateError)), [])
    else (Form(if f.input.Some? then Some("") else None, None), [CreateRequested(Strip(name, JavaScript))])
  }

  /** `doSave` of the inline editor: a name that trims to nothing shows the
      error and sends nothing; otherwise the error is cleared and the trimmed
      name is sent with the deck id. The editor's text stays as typed. */
  function EditSave(deckId: int, text: string): (r: (Option<string>, seq<Event>))
    ensures IsBlank(text, JavaScript) ==> r == (Some(RenameError), [])
    ensures !IsBlank(text, JavaScript) ==> r == (None, [UpdateRequested(deckId, Strip(text, JavaScript))])
  {
    StripEmptyIffBlank(text, JavaScript);
    var name := Strip(text, JavaScript);
    if name == "" then (Some(RenameError), []) else (None, [UpdateRequested(deckId, name)])
  }

  /** The two entry points agree on which names they refuse: the create form
      refuses exactly the texts the editor refuses, and both send the trimmed
      text. */
  lemma {:induction false} CreateAndRenameAgree(text: string, deckId: int)
    ensures HandleCreate(Form(Some(text), None)).1 == [] <==> EditSave(deckId, text).1 == []
    ensures !IsBlank(text, JavaScript) ==> HandleCreate(Form(Some(text), None)).1[0].name == EditSave(deckId, text).1[0].name
  {
  }

  /** A name the form sends is one the bridge's `create_deck` accepts and
      stores exactly as sent, provided it neither starts nor ends with one of
      the separators 0x1c..0x1f that `trim()` keeps and `strip()` removes. */
  lemma {:induction false} SentNameIsStoredAsSent(f: Form, decks: Api.Decks, now: string)
    requires |HandleCreate(f).1| > 0
    requires Trimmed(HandleCreate(f).1[0].name, Python)
    ensures var sent := HandleCreate(f).1[0].name;
      var stored := Api.CreateDeck(decks, Some(sent), now).1;
      stored.Success? && stored.value.name == sent
  {
    var name := f.input.GetOr("");
    var sent := Strip(name, JavaScript);
    StripEmptyIffBlank(name, JavaScript);
    StripKeepsTrimmed(sent, Python);
    StripEmptyIffBlank(sent, Python);
  }

  /** For every name the form sends, the bridge stores what Python's
      `strip()` makes of the text typed into the field, and refuses it when
      that is nothing. */
  lemma {:induction false} StoredNameIsStripOfTyped(f: Form, decks: Api.Decks, now: string)
    requires |HandleCreate(f).1| > 0
    ensures var typed := f.input.GetOr("");
      var stored := Api.CreateDeck(decks, Some(HandleCreate(f).1[0].name), now).1;
      && (stored.Success? <==> !IsBlank(typed, Python))
      && (stored.Success? ==> stored.value.name == Strip(typed, Python))
  {
    var typed := f.input.GetOr("");
    StripEmptyIffBlank(typed, JavaScript);
    StripAfterTrim(typed);
    StripEmptyIffBlank(Strip(typed, JavaScript), Python);
    StripEmptyIffBlank(typed, Python);
  }

  /** The unit separator passes the form's check and is sent, and the bridge
      refuses it as an empty name. */
  lemma {:induction false} FormSendsWhatBridgeRefuses(decks: Api.Decks, now: string)
    ensures HandleCreate(Form(Some("\U{1F}"), None)).1 == [CreateRequested("\U{1F}")]
    ensures Api.CreateDeck(decks, Some("\U{1F}"), now).1 == Failure(Api.EmptyDeckName)
  {
    assert !IsSpace('\U{1F}', JavaScript) && IsSpace('\U{1F}', Python);
    StripKeepsTrimmed("\U{1F}", JavaScript);
  }
}
