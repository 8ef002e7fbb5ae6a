/** The page state ContactFormValidator drives: the values of the three fields, the
    marks on their inputs and error regions, the character counter, the summary panel,
    and the submit button, spinner, form and success panel of the submission flow.
    Event listeners and timers are not modelled: a blur, a debounced validation, an input
    event or a timer firing is a call of the method the listener or timer would run. */
module Form {
  import opened Wrappers
  import opened Validators
  import opened Counter

  datatype Field = Name | Email | Message

  /** The order validateAllFields and resetForm visit the fields in. */
  const Fields: seq<Field> := [Name, Email, Message]

  /** Where a field sits in Fields. */
  function Position(f: Field): (i: nat)
    ensures i < |Fields| && Fields[i] == f
  {
    match f
    case Name => 0
    case Email => 1
    case Message => 2
  }

  /** The field's element id, which also heads its entry in the error summary. */
  function FieldId(f: Field): string {
    match f
    case Name => "name"
    case Email => "email"
    case Message => "message"
  }


  /** One item per field. */
  datatype PerField<T> = PerField(name: T, email: T, message: T) {
    function Get(f: Field): T {
      match f
      case Name => name
      case Email => email
      case Message => message
    }

    function Set(f: Field, x: T): (p: PerField<T>)
      ensures p.Get(f) == x
      ensures forall g: Field :: g != f ==> p.Get(g) == Get(g)
    {
      match f
      case Name => this.(name := x)
      case Email => this.(email := x)
      case Message => this.(message := x)
    }
  }

  type Values = PerField<string>

  /** What form.reset() leaves in the fields (their markup has no default values). */
  const EmptyValues: Values := PerField("", "", "")

  /** The customValidation function of each entry of validationRules. (The entries'
      required, minLength, maxLength and pattern are never consulted.) */
  type Rules = PerField<string -> Option<string>>

  /** The rules the constructor installs. */
  const ValidationRules: Rules := PerField(ValidateName, ValidateEmail, ValidateMessage)

  /** The field's rule applied to its raw value. */
  function Validate(rules: Rules, f: Field, value: string): Option<string> {
    rules.Get(f)(value)
  }

  /** With the installed rules, each field is checked by its own validator. */
  lemma NameRule(value: string)
    ensures Validate(ValidationRules, Name, value) == ValidateName(value)
  {
    assert ValidationRules.Get(Name) == ValidateName;
  }

  lemma EmailRule(value: string)
    ensures Validate(ValidationRules, Email, value) == ValidateEmail(value)
  {
    assert ValidationRules.Get(Email) == ValidateEmail;
  }

  lemma MessageRule(value: string)
    ensures Validate(ValidationRules, Message, value) == ValidateMessage(value)
  {
    assert ValidationRules.Get(Message) == ValidateMessage;
  }

  predicate AllValid(rules: Rules, values: Values) {
    forall f: Field :: Validate(rules, f, values.Get(f)).None?
  }

  /** One field's marks: the input's 'error' and 'success' classes, the error region's
      'show' class and the text of its '.error-text' element. */
  datatype Marks = Marks(error: bool, success: bool, errorShown: bool, errorText: string)

  const Unmarked := Marks(false, false, false, "")

  type MarksMap = PerField<Marks>

  /** The marks never say "valid" and "invalid" at once, and the error region is shown
      exactly when the input is marked as an error. */
  predicate Consistent(m: Marks) {
    !(m.error && m.success) && m.errorShown == m.error
  }

  /** showFieldError: drop 'success', add 'error', write the message, show the region. */
  function ShowError(m: Marks, message: string): Marks {
    m.(error := true, success := false, errorShown := true, errorText := message)
  }

  /** clearFieldError: drop 'error' and hide the region; 'success' and the text stay. */
  function ClearError(m: Marks): Marks {
    m.(error := false, errorShown := false)
  }

  /** The marks validateField leaves for an outcome of the field's rule. */
  function AfterValidation(m: Marks, r: Option<string>): (m': Marks)
    ensures Consistent(m')
    ensures m'.error <==> r.Some?
    ensures m'.success <==> r.None?
    ensures r.Some? ==> m'.errorText == r.value
    ensures r.None? ==> m'.errorText == m.errorText
  {
    match r
    case Some(message) => ShowError(m, message)
    case None => ClearError(m).(success := true)
  }

  /** Validating a field twice with the same value leaves the marks of the first time. */
  lemma ValidationIdempotent(m: Marks, r: Option<string>)
    ensures AfterValidation(AfterValidation(m, r), r) == AfterValidation(m, r)
  {
  }

  /** The marks resetForm leaves: neither 'error' nor 'success', region hidden. */
  function AfterReset(m: Marks): (m': Marks)
    ensures Consistent(m') && !m'.error && !m'.success
    ensures m'.errorText == m.errorText
  {
    ClearError(m).(success := false)
  }

  /** The summary entry `${field}: ${errorText}` of a failing field. */
  function Entry(f: Field, message: string): string {
    FieldId(f) + ": " + message
  }

  function EntryIfFailing(rules: Rules, f: Field, value: string): seq<string> {
    match Validate(rules, f, value)
    case None => []
    case Some(message) => [Entry(f, message)]
  }

  /** The entries validateAllFields collects while visiting fs in order. */
  function EntriesFor(rules: Rules, fs: seq<Field>, values: Values): seq<string> {
    if fs == [] then []
    else EntriesFor(rules, fs[..|fs| - 1], values) + EntryIfFailing(rules, fs[|fs| - 1], values.Get(fs[|fs| - 1]))
  }

  predicate AllPass(rules: Rules, fs: seq<Field>, values: Values) {
    forall j :: 0 <= j < |fs| ==> Validate(rules, fs[j], values.Get(fs[j])).None?
  }

  /** The summary's entries for a whole form. */
  function ErrorEntries(rules: Rules, values: Values): seq<string> {
    EntriesFor(rules, Fields, values)
  }

  /** Visiting one more field adds its entry, if it fails, at the end. */
  lemma EntriesStep(rules: Rules, fs: seq<Field>, f: Field, values: Values)
    ensures EntriesFor(rules, fs + [f], values) == EntriesFor(rules, fs, values) + EntryIfFailing(rules, f, values.Get(f))
  {
    assert (fs + [f])[..|fs|] == fs;
  }

  lemma AllPassStep(rules: Rules, fs: seq<Field>, f: Field, values: Values)
    ensures AllPass(rules, fs + [f], values) <==> AllPass(rules, fs, values) && Validate(rules, f, values.Get(f)).None?
  {
    if AllPass(rules, fs + [f], values) {
      assert (fs + [f])[|fs|] == f;
      forall j | 0 <= j < |fs| ensures Validate(rules, fs[j], values.Get(fs[j])).None? {
        assert (fs + [f])[j] == fs[j];
      }
    }
  }

  /** Visiting a list of fields yields no entry exactly when every one of them passes. */
  lemma {:induction false} EntriesEmpty(rules: Rules, fs: seq<Field>, values: Values)
    ensures EntriesFor(rules, fs, values) == [] <==> AllPass(rules, fs, values)
  {
    if fs != [] {
      var init, last := fs[..|fs| - 1], fs[|fs| - 1];
      assert fs == init + [last];
      EntriesEmpty(rules, init, values);
      EntriesStep(rules, init, last, values);
      AllPassStep(rules, init, last, values);
    }
  }

  /** Passing every field of Fields is passing every field. */
  lemma AllPassFields(rules: Rules, values: Values)
    ensures AllPass(rules, Fields, values) <==> AllValid(rules, values)
  {
    if AllPass(rules, Fields, values) {
      forall f: Field ensures Validate(rules, f, values.Get(f)).None? {
        assert Fields[Position(f)] == f;
      }
    }
  }

  /** The summary lists the failing fields in the order name, email, message, each as
      `field: first failing message`; it is empty exactly when the whole form is valid. */
  lemma ErrorEntriesShape(rules: Rules, values: Values)
    ensures ErrorEntries(rules, values)
         == EntryIfFailing(rules, Name, values.name)
          + EntryIfFailing(rules, Email, values.email)
          + EntryIfFailing(rules, Message, values.message)
    ensures ErrorEntries(rules, values) == [] <==> AllValid(rules, values)
  {
    assert Fields == [] + [Name] + [Email] + [Message];
    EntriesStep(rules, [], Name, values);
    EntriesStep(rules, [Name], Email, values);
    EntriesStep(rules, [Name, Email], Message, values);
    EntriesEmpty(rules, Fields, values);
    AllPassFields(rules, values);
  }

  /** When only the email fails, the summary has the single entry `email: message`. */
  lemma OnlyEmailFails(rules: Rules, values: Values)
    requires Validate(rules, Name, values.name).None? && Validate(rules, Message, values.message).None?
    requires Validate(rules, Email, values.email).Some?
    ensures ErrorEntries(rules, values) == ["email: " + Validate(rules, Email, values.email).value]
  {
    ErrorEntriesShape(rules, values);
    var message := Validate(rules, Email, values.email).value;
    assert FieldId(Email) + ": " == "email: ";
    assert Entry(Email, message) == "email: " + message;
  }

  /** The marks after validateField has run on each of fs in turn. */
  function Marked(rules: Rules, ms: MarksMap, fs: seq<Field>, values: Values): MarksMap {
    if fs == [] then ms
    else
      var prior := Marked(rules, ms, fs[..|fs| - 1], values);
      var f := fs[|fs| - 1];
      prior.Set(f, AfterValidation(prior.Get(f), Validate(rules, f, values.Get(f))))
  }

  lemma MarkedStep(rules: Rules, ms: MarksMap, fs: seq<Field>, f: Field, values: Values)
    ensures Marked(rules, ms, fs + [f], values)
         == Marked(rules, ms, fs, values).Set(f, AfterValidation(Marked(rules, ms, fs, values).Get(f), Validate(rules, f, values.Get(f))))
  {
    assert (fs + [f])[..|fs|] == fs;
  }

  /** One pass of the forEach of validateAllFields, stated on the three pieces of state
      the loop carries: the marks, the error list and the validity flag. */
  lemma VisitStep(rules: Rules, ms: MarksMap, done: seq<Field>, f: Field, values: Values,
                  marks: MarksMap, errors: seq<string>, isValid: bool,
                  fieldValid: bool, entry: seq<string>, marks': MarksMap)
    requires marks == Marked(rules, ms, done, values)
    requires errors == EntriesFor(rules, done, values)
    requires isValid <==> AllPass(rules, done, values)
    requires fieldValid <==> Validate(rules, f, values.Get(f)).None?
    requires entry == EntryIfFailing(rules, f, values.Get(f))
    requires marks' == marks.Set(f, AfterValidation(marks.Get(f), Validate(rules, f, values.Get(f))))
    ensures marks' == Marked(rules, ms, done + [f], values)
    ensures errors + entry == EntriesFor(rules, done + [f], values)
    ensures isValid && fieldValid <==> AllPass(rules, done + [f], values)
  {
    EntriesStep(rules, done, f, values);
    AllPassStep(rules, done, f, values);
    MarkedStep(rules, ms, done, f, values);
  }

  /** Validating the fields of Fields in turn validates each field once. */
  lemma MarkedFields(rules: Rules, ms: MarksMap, values: Values)
    ensures forall f: Field :: Marked(rules, ms, Fields, values).Get(f) == AfterValidation(ms.Get(f), Validate(rules, f, values.Get(f)))
  {
    assert Fields == [] + [Name] + [Email] + [Message];
    MarkedStep(rules, ms, [], Name, values);
    MarkedStep(rules, ms, [Name], Email, values);
    MarkedStep(rules, ms, [Name, Email], Message, values);
  }

  /** What the summary panel (formStats) holds. */
  datatype Summary = NoSummary | ErrorList(entries: seq<string>) | AllFieldsValid

  /** The send: simulateFormSubmission either resolves or rejects. */
  datatype SendOutcome = Resolved | Rejected

  const IdleLabel := "Send Message"
  const SendingLabel := "Sending..."

  class ContactForm {
    /** validationRules, installed by the constructor and never replaced. */
    const rules: Rules
    var values: Values
    var marks: MarksMap
    /** The counter's text and its extra class. */
    var counterText: string
    var band: Band
    /** The summary panel: displayed or not, and its content. */
    var statsVisible: bool
    var summary: Summary
    /** The submit button's shake animation. */
    var shaking: bool
    /** The submit button, its spinner and its label. */
    var submitDisabled: bool
    var spinnerVisible: bool
    var btnText: string
    /** Whether the form or the success panel is displayed. */
    var formVisible: bool
    var successVisible: bool
    /** Sends started and not yet settled. */
    var pendingSends: nat

    /** The invariant every handler keeps: consistent marks and a consistent display. */
    ghost predicate Valid()
      reads this
    {
      MarksValid() && DisplayValid()
    }

    /** No field shows an error region without the `error` class or carries both classes. */
    ghost predicate MarksValid()
      reads this`marks
    {
      forall f: Field :: Consistent(marks.Get(f))
    }

    /** The counter matches the message, the button's parts agree, a disabled button
        means a send is under way, and exactly one of the form and the success panel is
        displayed. */
    ghost predicate DisplayValid()
      reads this`values, this`counterText, this`spinnerVisible, this`submitDisabled
      reads this`btnText, this`pendingSends, this`formVisible, this`successVisible
    {
      && counterText == CounterText(|values.Get(Message)|)
      && spinnerVisible == submitDisabled
      && btnText == (if submitDisabled then SendingLabel else IdleLabel)
      && (pendingSends == 0 ==> !submitDisabled)
      && formVisible != successVisible
    }

    /** The page as its markup presents it, once the validator is attached. */
    constructor ()
      ensures Valid()
      ensures rules == ValidationRules
      ensures values == EmptyValues
      ensures forall f: Field :: marks.Get(f) == Unmarked
      ensures counterText == CounterText(0) && band == Normal
      ensures !statsVisible && summary == NoSummary && !shaking
      ensures !submitDisabled && pendingSends == 0
      ensures formVisible && !successVisible
    {
      rules := ValidationRules;
      values := EmptyValues;
      marks := PerField(Unmarked, Unmarked, Unmarked);
      counterText := CounterText(0);
      band := Normal;
      statsVisible := false;
      summary := NoSummary;
      shaking := false;
      submitDisabled := false;
      spinnerVisible := false;
      btnText := IdleLabel;
      formVisible := true;
      successVisible := false;
      pendingSends := 0;
    }

    method ShowFieldError(f: Field, message: string)
      modifies this`marks
      ensures marks == old(marks).Set(f, ShowError(old(marks).Get(f), message))
    {
      marks := marks.Set(f, ShowError(marks.Get(f), message));
    }

    method ClearFieldError(f: Field)
      modifies this`marks
      ensures marks == old(marks).Set(f, ClearError(old(marks).Get(f)))
    {
      marks := marks.Set(f, ClearError(marks.Get(f)));
    }

    /** Runs the field's rule on its value and marks the field with the outcome. */
    method ValidateField(f: Field) returns (ok: bool)
      requires Valid()
      modifies this`marks
      ensures Valid()
      ensures ok <==> Validate(rules, f, values.Get(f)).None?
      ensures marks == old(marks).Set(f, AfterValidation(old(marks).Get(f), Validate(rules, f, values.Get(f))))
    {
      var error := Validate(rules, f, values.Get(f));
      if error.Some? {
        ShowFieldError(f, error.value);
        ok := false;
      } else {
        ClearFieldError(f);
        marks := marks.Set(f, marks.Get(f).(success := true));
        ok := true;
      }
    }

    /** Shows the error list when there are entries, the all-valid note when the form
        is valid, and otherwise leaves the panel as it was. */
    method UpdateFormStats(isValid: bool, errors: seq<string>)
      modifies this`statsVisible, this`summary
      ensures |errors| > 0 ==> statsVisible && summary == ErrorList(errors)
      ensures |errors| == 0 && isValid ==> statsVisible && summary == AllFieldsValid
      ensures |errors| == 0 && !isValid ==> statsVisible == old(statsVisible) && summary == old(summary)
    {
      if |errors| > 0 {
        statsVisible := true;
        summary := ErrorList(errors);
      } else if isValid {
        statsVisible := true;
        summary := AllFieldsValid;
      }
    }

    /** The timer that hides the all-valid note. */
    method HideFormStats()
      modifies this`statsVisible
      ensures !statsVisible
    {
      statsVisible := false;
    }

    /** The forEach callback of validateAllFields: validates one field and, when it
        fails, yields the entry `field: text` made from the text its error region now
        shows. */
    method VisitField(field: Field) returns (fieldValid: bool, entry: seq<string>)
      requires Valid()
      modifies this`marks
      ensures Valid()
      ensures fieldValid <==> Validate(rules, field, values.Get(field)).None?
      ensures entry == EntryIfFailing(rules, field, values.Get(field))
      ensures marks == old(marks).Set(field, AfterValidation(old(marks).Get(field), Validate(rules, field, values.Get(field))))
    {
      fieldValid := ValidateField(field);
      entry := [];
      if !fieldValid {
        entry := [Entry(field, marks.Get(field).errorText)];
      }
    }

    /** The forEach of validateAllFields: visits name, email and message in that order. */
    method ValidateEach() returns (isValid: bool, errors: seq<string>)
      requires Valid()
      modifies this`marks
      ensures Valid()
      ensures isValid <==> AllValid(rules, values)
      ensures errors == ErrorEntries(rules, values)
      ensures forall f: Field :: marks.Get(f) == AfterValidation(old(marks).Get(f), Validate(rules, f, values.Get(f)))
    {
      isValid := true;
      errors := [];
      var i := 0;
      while i < |Fields|
        invariant 0 <= i <= |Fields|
        invariant Valid()
        invariant marks == Marked(rules, old(marks), Fields[..i], values)
        invariant errors == EntriesFor(rules, Fields[..i], values)
        invariant isValid <==> AllPass(rules, Fields[..i], values)
      {
        var field := Fields[i];
        ghost var done := Fields[..i];
        ghost var before := marks;
        assert Fields[..i + 1] == done + [field];
        var fieldValid, entry := VisitField(field);
        VisitStep(rules, old(marks), done, field, values, before, errors, isValid, fieldValid, entry, marks);
        isValid := isValid && fieldValid;
        errors := errors + entry;
        i := i + 1;
      }
      assert Fields[..|Fields|] == Fields;
      AllPassFields(rules, values);
      MarkedFields(rules, old(marks), values);
    }

    /** Validates every field and fills the summary: the error list when a field fails,
        the all-valid note otherwise. */
    method ValidateAllFields() returns (isValid: bool)
      requires Valid()
      modifies this`marks, this`statsVisible, this`summary
      ensures Valid()
      ensures isValid <==> AllValid(rules, values)
      ensures forall f: Field :: marks.Get(f) == AfterValidation(old(marks).Get(f), Validate(rules, f, values.Get(f)))
      ensures statsVisible
      ensures summary == if isValid then AllFieldsValid else ErrorList(ErrorEntries(rules, values))
    {
      var errors;
      isValid, errors := ValidateEach();
      ErrorEntriesShape(rules, values);
      UpdateFormStats(isValid, errors);
    }

    method ShowLoadingState()
      modifies this`submitDisabled, this`spinnerVisible, this`btnText
      ensures submitDisabled && spinnerVisible && btnText == SendingLabel
    {
      submitDisabled := true;
      spinnerVisible := true;
      btnText := SendingLabel;
    }

    method HideLoadingState()
      modifies this`submitDisabled, this`spinnerVisible, this`btnText
      ensures !submitDisabled && !spinnerVisible && btnText == IdleLabel
    {
      submitDisabled := false;
      spinnerVisible := false;
      btnText := IdleLabel;
    }

    /** The submit handler up to its await: an invalid form makes the button shake and
        starts nothing; a valid one puts the button into its loading state and starts a
        send. The disabled button does not stop it, since Ctrl+Enter dispatches submit. */
    method HandleSubmit() returns (sent: bool)
      requires Valid()
      modifies this`marks, this`statsVisible, this`summary, this`shaking
      modifies this`submitDisabled, this`spinnerVisible, this`btnText, this`pendingSends
      ensures Valid()
      ensures sent <==> AllValid(rules, values)
      ensures forall f: Field :: marks.Get(f) == AfterValidation(old(marks).Get(f), Validate(rules, f, values.Get(f)))
      ensures statsVisible
      ensures summary == if sent then AllFieldsValid else ErrorList(ErrorEntries(rules, values))
      ensures !sent ==> shaking && pendingSends == old(pendingSends)
      ensures !sent ==> submitDisabled == old(submitDisabled) && btnText == old(btnText)
      ensures sent ==> shaking == old(shaking) && pendingSends == old(pendingSends) + 1
      ensures sent ==> submitDisabled && spinnerVisible && btnText == SendingLabel
    {
      var valid := ValidateAllFields();
      if !valid {
        shaking := true;
        sent := false;
        return;
      }
      StartSend();
      sent := true;
    }

    /** The valid branch of handleSubmit: the loading state, and one more send under way. */
    method StartSend()
      requires Valid()
      modifies this`submitDisabled, this`spinnerVisible, this`btnText, this`pendingSends
      ensures Valid()
      ensures pendingSends == old(pendingSends) + 1
      ensures submitDisabled && spinnerVisible && btnText == SendingLabel
    {
      ShowLoadingState();
      pendingSends := pendingSends + 1;
    }

    /** The timer that ends the shake animation. */
    method EndShake()
      modifies this`shaking
      ensures !shaking
    {
      shaking := false;
    }

    method ShowSuccessMessage()
      modifies this`formVisible, this`successVisible
      ensures !formVisible && successVisible
    {
      formVisible := false;
      successVisible := true;
    }

    /** The submit handler after its await: on resolution the success panel replaces the
        form, on rejection an alert is raised; either way the button is restored. */
    method SettleSend(outcome: SendOutcome)
      requires Valid() && pendingSends > 0
      modifies this`submitDisabled, this`spinnerVisible, this`btnText, this`pendingSends
      modifies this`formVisible, this`successVisible
      ensures Valid()
      ensures pendingSends == old(pendingSends) - 1
      ensures !submitDisabled && !spinnerVisible && btnText == IdleLabel
      ensures outcome == Resolved ==> !formVisible && successVisible
      ensures outcome == Rejected ==> formVisible == old(formVisible) && successVisible == old(successVisible)
    {
      pendingSends := pendingSends - 1;
      if outcome == Resolved {
        ShowSuccessMessage();
      }
      HideLoadingState();
    }

    /** updateCharacterCounter: rewrites the counter text only. */
    method UpdateCharacterCounter()
      modifies this`counterText
      ensures counterText == CounterText(|values.Get(Message)|)
    {
      counterText := CounterText(|values.Get(Message)|);
    }

    /** The counter's own input listener: rewrites its text and recomputes its class. */
    method RefreshCounter()
      modifies this`counterText, this`band
      ensures counterText == CounterText(|values.Get(Message)|)
      ensures band == BandFor(|values.Get(Message)|)
    {
      var currentLength := |values.Get(Message)|;
      counterText := CounterText(currentLength);
      band := BandFor(currentLength);
    }

    /** An input event: the field takes the new value and loses its error mark; on the
        message field the counter follows the new length. */
    method Input(f: Field, v: string)
      requires Valid()
      modifies this`values, this`marks, this`counterText, this`band
      ensures Valid()
      ensures values == old(values).Set(f, v)
      ensures marks == old(marks).Set(f, ClearError(old(marks).Get(f)))
      ensures f == Message ==> counterText == CounterText(|v|) && band == BandFor(|v|)
      ensures f != Message ==> counterText == old(counterText) && band == old(band)
    {
      values := values.Set(f, v);
      ClearFieldError(f);
      if f == Message {
        UpdateCharacterCounter();
        RefreshCounter();
      }
    }

    /** The forEach of resetForm: every field loses `error` and `success` and hides its
        error region. */
    method ResetMarks()
      modifies this`marks
      ensures forall f: Field :: marks.Get(f) == AfterReset(old(marks).Get(f))
    {
      var i := 0;
      while i < |Fields|
        invariant 0 <= i <= |Fields|
        invariant forall f: Field ::
          marks.Get(f) == (if Position(f) < i then AfterReset(old(marks).Get(f)) else old(marks).Get(f))
      {
        var field := Fields[i];
        ClearFieldError(field);
        marks := marks.Set(field, marks.Get(field).(success := false));
        i := i + 1;
      }
    }

    /** The timer after a successful send: empties the fields, shows the form again,
        drops every field mark, hides the summary and rewrites the counter text. The
        counter's class is not touched. */
    method ResetForm()
      requires Valid()
      modifies this`values, this`marks, this`formVisible, this`successVisible
      modifies this`statsVisible, this`counterText
      ensures Valid()
      ensures values == EmptyValues
      ensures forall f: Field :: marks.Get(f) == AfterReset(old(marks).Get(f))
      ensures formVisible && !successVisible && !statsVisible
      ensures counterText == CounterText(0)
    {
      values := EmptyValues;
      formVisible := true;
      successVisible := false;
      ResetMarks();
      statsVisible := false;
      UpdateCharacterCounter();
    }
  }
}
