/** The creation dialog (components/Creator/CreatorModal.tsx): a secret-code
    gate, then a form whose text and images are turned into a canvas by the
    model and saved to the memory store as a new timeline entry. */
module Creator {
  import opened Wrappers
  import opened Strings
  import opened Types
  import Dates
  import Gemini
  import Storage

  /** Where the dialog is: asking for the code, editing, or waiting for the model. */
  datatype Step = Auth | Edit | Generating

  const Secret: string := "1314"
  const WrongSecretAlert: string := "Wrong secret code!"
  const EmptyAlert: string := "Please add some content!"

  /** The substrings the error classification looks for in a message. */
  const QuotaMarker: string := "QuotaExceeded"
  const TimeoutMarker: string := "Failed to generate"

  const QuotaAlert: string :=
    "Storage is full! " + "But since we switched to IndexedDB, this is rare. Check your device storage."
  const TimeoutAlert: string := "AI is thinking " + "too hard and timed out. Try fewer photos."
  const ErrorPrefix: string := "Error: "

  /** `e.message || e`: the message, or the error's string form when the
      message is empty. */
  function ErrorText(e: JsError): (t: string)
    ensures e.message != "" ==> t == e.message
    ensures e.message == "" ==> t == e.name
  {
    if e.message != "" then e.message else e.ToString()
  }

  /** The alert shown when creating an entry fails: the storage-full alert
      exactly when the message mentions the quota, the time-out alert exactly
      when it mentions a failed generation and not the quota, and otherwise
      the error's own text after a prefix. */
  function ErrorAlert(e: JsError): (alert: string)
    ensures alert == QuotaAlert <==> Contains(e.message, QuotaMarker)
    ensures alert == TimeoutAlert <==> !Contains(e.message, QuotaMarker) && Contains(e.message, TimeoutMarker)
    ensures !Contains(e.message, QuotaMarker) && !Contains(e.message, TimeoutMarker) ==>
      StartsWith(alert, ErrorPrefix) && alert[|ErrorPrefix|..] == ErrorText(e)
  {
    assert QuotaAlert[0] == 'S' && TimeoutAlert[0] == 'A';
    assert (ErrorPrefix + ErrorText(e))[0] == 'E';
    if Contains(e.message, QuotaMarker) then QuotaAlert
    else if Contains(e.message, TimeoutMarker) then TimeoutAlert
    else ErrorPrefix + ErrorText(e)
  }

  /** The error `generateSmartCanvas` throws always gets the time-out alert. */
  lemma GenerationFailureAlert()
    ensures ErrorAlert(JsError("Error", Gemini.GenerationFailed)) == TimeoutAlert
  {
    GenerationFailedMentionsTimeout();
    GenerationFailedNoQuota();
  }

  lemma GenerationFailedMentionsTimeout()
    ensures Contains(Gemini.GenerationFailed, TimeoutMarker)
  {
    var m := Gemini.GenerationFailed;
    assert m[0..|TimeoutMarker|] == TimeoutMarker;
    OccurrenceContains(m, TimeoutMarker, 0);
  }

  lemma GenerationFailedNoQuota()
    ensures !Contains(Gemini.GenerationFailed, QuotaMarker)
  {
    MissingCharNotContained(Gemini.GenerationFailed, QuotaMarker, 0);
  }

  /** The entry built after a successful generation. `Date.now()` is read
      twice, once for the id and once for `createdAt`; the two readings are
      parameters. */
  function NewItem(idClock: nat, date: int, text: string, images: seq<string>, html: string, createdClock: int)
    : (item: MemoryItem)
    ensures item.dayIndex >= 1
    ensures item.date > Dates.StartMs + Dates.DayMs ==> item.dayIndex > 1
  {
    MemoryItem(NatToString(idClock), date, Dates.DayIndex(date), RawAssets(text, images), html, createdClock)
  }

  /** Entries created at different milliseconds have different ids, so a new
      entry never replaces an earlier one in the store. */
  lemma NewItemIdsDistinct(c1: nat, c2: nat, d1: int, d2: int, t1: string, t2: string,
                           i1: seq<string>, i2: seq<string>, h1: string, h2: string, k1: int, k2: int)
    requires c1 != c2
    ensures NewItem(c1, d1, t1, i1, h1, k1).id != NewItem(c2, d2, t2, i2, h2, k2).id
  {
    if NatToString(c1) == NatToString(c2) {
      NatToStringInjective(c1, c2);
    }
  }

  /** The dialog's state. `date` is the chosen day as an instant in
      milliseconds; the prompt is the optional style request. */
  class CreatorModal {
    var step: Step
    var password: string
    var date: int
    var text: string
    var images: seq<string>
    var prompt: string

    /** A fresh dialog: locked, empty form, dated `today`. */
    constructor (today: int)
      ensures step == Auth && password == "" && date == today
      ensures text == "" && images == [] && prompt == ""
    {
      step := Auth;
      password := "";
      date := today;
      text := "";
      images := [];
      prompt := "";
    }

    /** `handleAuth`: the right code opens the form; a wrong one is alerted
        and nothing changes. */
    method HandleAuth() returns (alert: Option<string>)
      modifies this
      ensures password == Secret ==> step == Edit && alert == None
      ensures password != Secret ==> step == old(step) && alert == Some(WrongSecretAlert)
      ensures password == old(password) && date == old(date) && text == old(text)
      ensures images == old(images) && prompt == old(prompt)
    {
      if password == Secret {
        step := Edit;
        alert := None;
      } else {
        alert := Some(WrongSecretAlert);
      }
    }

    /** `handleGenerateAndSave`, given the model's reply, the two clock
        readings and the outcome of the store's `put`. An empty form is
        refused; a failure is alerted and returns to editing with the form
        intact; success saves the entry and resets the dialog to its locked
        state, keeping the chosen date. */
    method HandleGenerateAndSave(store: Storage.MemoryStore, reply: Gemini.ModelReply,
                                 idClock: nat, createdClock: int, storeFault: Option<JsError>)
      returns (alert: Option<string>)
      requires store.Valid()
      modifies this, store
      ensures store.Valid()
      ensures old(text) == "" && old(images) == [] ==>
        alert == Some(EmptyAlert) && unchanged(this) && store.items == old(store.items)
      ensures (old(text) != "" || old(images) != []) && reply.Threw? ==>
        && alert == Some(TimeoutAlert)
        && store.items == old(store.items)
        && step == Edit
        && password == old(password) && date == old(date) && text == old(text)
        && images == old(images) && prompt == old(prompt)
      ensures (old(text) != "" || old(images) != []) && reply.Returned? && storeFault.Some? ==>
        && alert == Some(ErrorAlert(storeFault.value))
        && store.items == old(store.items)
        && step == Edit
        && password == old(password) && date == old(date) && text == old(text)
        && images == old(images) && prompt == old(prompt)
      ensures (old(text) != "" || old(images) != []) && reply.Returned? && storeFault.None? ==>
        && alert == None
        && store.items == old(store.items)[NatToString(idClock) :=
             NewItem(idClock, old(date), old(text), old(images), Gemini.Canvas(reply.text, old(images)), createdClock)]
        && step == Auth
        && password == "" && date == old(date) && text == "" && images == [] && prompt == ""
    {
      if text == "" && |images| == 0 {
        return Some(EmptyAlert);
      }
      step := Generating;
      var generated := Gemini.GenerateSmartCanvas(text, images, Some(prompt), reply);
      if generated.Failure? {
        GenerationFailureAlert();
        step := Edit;
        return Some(ErrorAlert(generated.error));
      }
      alert := SaveGenerated(store, generated.value, idClock, createdClock, storeFault);
    }

    /** The second half of `handleGenerateAndSave`: the new entry is put in
        the store; on success the form is cleared and the dialog locked, on
        failure the error is alerted and editing resumes. */
    method SaveGenerated(store: Storage.MemoryStore, html: string,
                         idClock: nat, createdClock: int, storeFault: Option<JsError>)
      returns (alert: Option<string>)
      requires store.Valid()
      modifies this, store
      ensures store.Valid() && date == old(date)
      ensures storeFault.Some? ==>
        && alert == Some(ErrorAlert(storeFault.value))
        && store.items == old(store.items)
        && step == Edit
        && password == old(password) && text == old(text)
        && images == old(images) && prompt == old(prompt)
      ensures storeFault.None? ==>
        && alert == None
        && store.items == old(store.items)[NatToString(idClock) :=
             NewItem(idClock, old(date), old(text), old(images), html, createdClock)]
        && step == Auth
        && password == "" && text == "" && images == [] && prompt == ""
    {
      var newItem := NewItem(idClock, date, text, images, html, createdClock);
      var saved := store.Add(newItem, storeFault);
      if saved.Failure? {
        step := Edit;
        return Some(ErrorAlert(saved.error));
      }
      step := Auth;
      text := "";
      images := [];
      prompt := "";
      password := "";
      return None;
    }
  }
}
