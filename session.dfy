/** One visit to the page, driven through the form's handlers in the order a visitor's
    events and the page's timers would run them. */
module Session {
  import opened Wrappers
  import opened Validators
  import opened Counter
  import opened Form
  import Scenarios

  /** What the installed rules say about the inputs of the visit below. */
  lemma VisitVerdicts()
    ensures Validate(ValidationRules, Name, "Jo") == None
    ensures Validate(ValidationRules, Email, "user@example.com") == Some(EmailNotReal)
    ensures Validate(ValidationRules, Email, "jo@domain.com") == None
    ensures Validate(ValidationRules, Message, "Hallo to you") == None
  {
    Scenarios.ShortestName();
    Scenarios.UserAtExample("user@example.com");
    Scenarios.PlainAddress("jo@domain.com");
    Scenarios.ShortGreeting("Hallo to you");
    NameRule("Jo");
    EmailRule("user@example.com");
    EmailRule("jo@domain.com");
    MessageRule("Hallo to you");
  }

  /** A visitor fills in a name, a denylisted address and a short message and submits:
      the summary lists the address alone and nothing is sent. */
  method RefusedSubmit(form: ContactForm) returns (summary: Summary, sent: bool)
    requires form.Valid() && form.pendingSends == 0
    requires Validate(form.rules, Name, "Jo") == None
    requires Validate(form.rules, Email, "user@example.com") == Some(EmailNotReal)
    requires Validate(form.rules, Message, "Hallo to you") == None
    modifies form
    ensures form.Valid() && form.pendingSends == 0
    ensures form.values == PerField("Jo", "user@example.com", "Hallo to you")
    ensures !sent && summary == ErrorList(["email: " + EmailNotReal])
  {
    form.Input(Name, "Jo");
    form.Input(Email, "user@example.com");
    form.Input(Message, "Hallo to you");
    assert form.values == PerField("Jo", "user@example.com", "Hallo to you");
    OnlyEmailFails(form.rules, form.values);
    sent := form.HandleSubmit();
    summary := form.summary;
  }

  /** After the refused submit the visitor corrects the address and submits again: the
      send starts, and once it resolves the success panel replaces the form and the button
      is restored. */
  method CorrectedAddress(form: ContactForm) returns (first: Summary, firstSent: bool, secondSent: bool)
    requires form.Valid() && form.pendingSends == 0
    requires Validate(form.rules, Name, "Jo") == None
    requires Validate(form.rules, Email, "user@example.com") == Some(EmailNotReal)
    requires Validate(form.rules, Email, "jo@domain.com") == None
    requires Validate(form.rules, Message, "Hallo to you") == None
    modifies form
    ensures !firstSent && first == ErrorList(["email: " + EmailNotReal])
    ensures secondSent
    ensures form.successVisible && !form.formVisible && form.btnText == IdleLabel && !form.submitDisabled
  {
    first, firstSent := RefusedSubmit(form);
    form.Input(Email, "jo@domain.com");
    assert form.values == PerField("Jo", "jo@domain.com", "Hallo to you");
    secondSent := form.HandleSubmit();
    form.SettleSend(Resolved);
  }

  /** The visit above on a freshly loaded page. */
  method Visit() returns (first: Summary, firstSent: bool, secondSent: bool)
    ensures !firstSent && first == ErrorList(["email: " + EmailNotReal])
    ensures secondSent
  {
    var form := new ContactForm();
    VisitVerdicts();
    first, firstSent, secondSent := CorrectedAddress(form);
  }

  /** Typing a 900-character message turns the counter to its warning class; the reset
      after a send rewrites the counter text but leaves that class in place. */
  method StaleCounterClass(form: ContactForm) returns (bandAfterReset: Band, textAfterReset: string)
    requires form.Valid()
    modifies form
    ensures bandAfterReset == Warning
    ensures textAfterReset == CounterText(0)
  {
    var long := seq(900, _ => 'a');
    form.Input(Message, long);
    assert form.band == Warning;
    form.ResetForm();
    bandAfterReset := form.band;
    textAfterReset := form.counterText;
  }
}
