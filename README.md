# Contact form validator, modelled in Dafny

This project models the class `ContactFormValidator` of the contact page in `script.js`.
The model has four layers:

- **Validators.** The three field validators (`validateName`, `validateEmail`,
  `validateMessage`) are pure functions from the raw field value to either no error or the
  first error message the source returns. The source's regular expressions become
  recognisers over `seq<char>`. Its `trim`, `toLowerCase` and `split` calls become the
  functions of the `Text` module.
- **Character counter.** The counter under the message field has a text
  (`"<n> / 1000 characters"`) and a colour band (normal, warning above 800 characters,
  danger above 950).
- **Form display state.** The class `ContactForm` keeps, per field, the `error` and
  `success` classes, whether the error region is shown and its text. It also keeps the
  aggregate summary, the shake animation, the submit button (disabled, spinner, label),
  the visibility of the form and of the success panel, and the number of sends still
  outstanding.
- **Submission flow.** `HandleSubmit` validates all fields. It then either shows the
  error summary and shakes the button, or shows the loading state and starts a send.
  `SettleSend` finishes a send; its outcome is a parameter. `ResetForm` restores the
  form.

Modules:

- `Wrappers`: the `Option` type.
- `Text`: JavaScript string primitives on `seq<char>`.
- `Validators`: the three validators, plus the theorems that characterise when they
  accept.
- `Counter`: the counter band and text.
- `Form`: the class `ContactForm` and the value-level functions that specify its methods.
- `Scenarios`: the validators' verdicts on example inputs.
- `Session`: two whole interactions with the class, written as methods.

The validators are installed in the class as an immutable field `rules`, so the class's
methods are stated against whatever rule set the form holds. The constructor installs
the three validators and `Form.NameRule`, `Form.EmailRule` and `Form.MessageRule`
connect the installed rules to the validator functions.

Two consequences of the order and shape of the checks in `script.js`:

- `"aaaaa"` is reported as too short, not as repetitive. The length check at line 176
  comes before the repetition check at line 184 (`Scenarios.FiveLetters`).
- The email pattern at line 130 accepts domain labels of a single character, so
  `x.com` is a valid domain (`Validators.IsLabel`, `Scenarios.OneLetterLabel`).

`resetForm` refreshes only the counter's text. It does not call the listener that sets
the band, so a warning or danger band outlives a reset. The model keeps this behaviour
(`Form.ContactForm.ResetForm`, `Session.StaleCounterClass`).

## Model

| member | source | states |
|---|---|---|
| Text.LowerChar | script.js:124 | the ASCII case mapping of `toLowerCase`: capitals map to the matching small letter, every other character is unchanged |
| Text.ToLower | script.js:124 | lower-casing keeps the length, maps each character by `LowerChar` and leaves no ASCII capital |
| Text.ToLowerUnchanged | script.js:124 | a string without ASCII capitals is its own lower-case form |
| Text.IsWhitespace | script.js:94 | the ECMAScript WhiteSpace and LineTerminator characters: what `trim()` removes, and also what `\s` matches at lines 108, 116 and 188 |
| Text.TrimStart | script.js:94 | the result is a suffix of the input; everything cut off is whitespace; the result does not start with whitespace |
| Text.TrimEnd | script.js:94 | the result is a prefix of the input; everything cut off is whitespace; the result does not end with whitespace |
| Text.Trim | script.js:94 | `trim()` yields a string that is empty or has non-whitespace at both ends; it is the slice of the input that starts where the leading whitespace ends, and everything before and after that slice is whitespace |
| Text.TrimSlice | script.js:94 | a prefix of a suffix of a string is a slice of it, and whitespace after the prefix is whitespace at the end of the string |
| Text.TrimBlank | script.js:96 | `!value.trim()` holds exactly when every character is whitespace (both directions) |
| Text.TrimUnchanged | script.js:94 | a string with non-whitespace at both ends is unchanged by `trim()` |
| Text.TrimIdempotent | script.js:94 | trimming twice equals trimming once |
| Text.Find | script.js:140-141 | the index of the first occurrence of a character, or the length when it does not occur |
| Text.FindWhitespace | script.js:188 | the index of the first whitespace character, with no whitespace before it |
| Text.FindFirst | script.js:140-141 | any index with the character there and none before it is the one `Find` returns |
| Text.FindWhitespaceFirst | script.js:188 | any index with whitespace there and none before it is the one `FindWhitespace` returns |
| Text.Count | script.js:112 | the number of occurrences of a character in a string |
| Text.CountAppend | script.js:112 | occurrences of a character in a concatenation add up |
| Text.CountAbsent | script.js:112 | a character missing from a string occurs zero times |
| Text.Split | script.js:112 | `split(c)` yields at least one piece and no piece holds the separator |
| Text.Join | script.js:140-141 | `join(c)`: the pieces with one `c` between neighbours |
| Text.JoinSplit | script.js:140-141 | joining the pieces of `split(c)` with `c` gives back the original string |
| Text.SplitCount | script.js:112 | `split(c).length` is the number of occurrences of `c` plus one |
| Text.SplitAbsent | script.js:140-141 | a string without the separator splits into itself alone |
| Text.SplitWhitespace | script.js:188 | `split(/\s+/)` yields at least one piece and no piece holds whitespace |
| Text.SplitWhitespaceWord | script.js:188 | a string without whitespace splits into itself alone |
| Text.SplitWhitespaceStep | script.js:188 | a first whitespace run of one character splits off the first word |
| Text.WhitespaceRuns | script.js:188 | the number of maximal runs of whitespace in a string |
| Text.WhitespaceRunsSkip | script.js:188 | a whitespace-free prefix adds no whitespace runs |
| Text.SplitWhitespaceCount | script.js:188 | `split(/\s+/).length` is the number of maximal whitespace runs plus one |
| Text.FirstWordSplit | script.js:188 | on a trimmed string holding whitespace, the first piece is a non-empty word and the rest after the first run is again trimmed and non-empty |
| Text.ConsWords | script.js:188 | putting a non-empty word before a list of non-empty words keeps every entry non-empty |
| Text.SplitWhitespaceWords | script.js:188 | on a trimmed non-empty string every piece of `split(/\s+/)` is a non-empty word |
| Text.DigitChar | script.js:60 | a digit value below ten renders as a decimal digit character |
| Text.NatToString | script.js:60 | the decimal rendering of a count is non-empty, all digits, and starts with `0` only when it is the string `0` for the count 0 |
| Text.NatToStringRoundTrip | script.js:60 | reading the decimal rendering back gives the original number |
| Validators.MatchesNamePattern | script.js:108 | `/^[a-zA-Z\s'-]+$/`: a non-empty string of ASCII letters, whitespace, `'` and `-` |
| Validators.HasWhitespacePair | script.js:116 | `/\s{2,}/`: two whitespace characters next to each other somewhere in the string |
| Validators.ValidateName | script.js:93-121 | every error returned is one of the six name messages |
| Validators.CheckName | script.js:96-118 | every error from the checks on the trimmed name is one of the six name messages |
| Validators.NameAcceptable | script.js:100-120 | what passes every name check, stated without `split`: 2 to 50 name characters, at most four spaces, no two whitespace characters in a row |
| Validators.NameAcceptance | script.js:93-121 | a name is accepted exactly when its trimmed form has 2 to 50 characters, all letters, whitespace, `'` or `-`, at most four spaces, and no two whitespace characters in a row (both directions) |
| Validators.NameBlankIsRequired | script.js:94-98 | an empty or all-whitespace name is reported as required |
| Validators.NameLengthBounds | script.js:100-106 | a trimmed length of 2 to 50 passes every length check; above 50 is always "too long", whatever the characters |
| Validators.ValidateEmail | script.js:123-167 | every error returned is one of the eight email messages |
| Validators.CheckEmail | script.js:126-164 | every error from the checks on the normalised address is one of the eight email messages |
| Validators.CheckParts | script.js:143-164 | every error from the checks on the two halves of `split('@')` is an email message |
| Validators.IsLocalChar | script.js:130 | the local-part class: ASCII letters, digits and the twenty symbols listed in the class at line 130, among them `.`, `+`, `_` and `-` |
| Validators.IsLabel | script.js:130 | one domain label of the pattern: 1 to 63 ASCII letters, digits or `-`, the first and last a letter or digit |
| Validators.IsDomain | script.js:130 | the domain of the pattern: a label, then any number of `.label` |
| Validators.IsEmailSyntax | script.js:130 | the whole pattern: a non-empty run of local-part characters, then the first `@`, then a domain |
| Validators.LocalPart | script.js:140 | `split('@')[0]`: the text before the first `@` |
| Validators.DomainPart | script.js:141 | `split('@')[1]`: the text between the first and the second `@`, or nothing when there is no `@` |
| Validators.ContainsDoubleDot | script.js:155 | `includes('..')`: two dots next to each other somewhere in the domain |
| Validators.LabelChars | script.js:130 | a label matched by the pattern holds neither `.` nor `@` |
| Validators.DomainEnds | script.js:130 | a domain matched by the pattern is non-empty, starts and ends with a non-dot, and holds no `@` |
| Validators.DomainChars | script.js:130 | every character of a pattern-matched domain is a letter, a digit, `-` or `.` |
| Validators.DomainNoDoubleDot | script.js:130 | a domain matched by the pattern never contains `..` |
| Validators.DomainShape | script.js:130 | a pattern-matched domain passes the source's two dot checks |
| Validators.EmailHalves | script.js:140-141 | on an address matching the pattern, `split('@')[0]` is the text before the `@` and `split('@')[1]` is the text after it |
| Validators.EmailOneAt | script.js:130 | an address matching the pattern holds exactly one `@` |
| Validators.EmailAcceptable | script.js:126-166 | what passes every email check: the pattern, at most 254 characters, at most 64 before the `@`, at least 2 after it, and a domain outside the denylist |
| Validators.CheckPartsWithoutDotFaults | script.js:143-164 | on a domain with no dot at either end and no `..`, the checks on the two halves reduce to the local-length, domain-length and denylist checks: the dot checks never fire |
| Validators.CheckEmailOfSyntax | script.js:136-164 | on a pattern-matching address the remaining checks apply to the text before and after the `@` |
| Validators.CheckEmailSyntactic | script.js:136-164 | on a pattern-matching address only the length, local-part, domain-length and denylist checks can fail |
| Validators.EmailAcceptance | script.js:123-167 | an address is accepted exactly when its normalised form matches the pattern, has at most 254 characters, at most 64 before the `@`, at least 2 after it, and a domain outside the denylist (both directions) |
| Validators.EmailDotChecksUnreachable | script.js:151-157 | the two dot-related messages are never returned, because the pattern already rules those domains out |
| Validators.EmailAcceptedShape | script.js:123-167 | an accepted address has exactly one `@`, at most 254 characters, a local part of at most 64 characters and a domain of at least 2 |
| Validators.EmailDenylisted | script.js:159-164 | a syntactically valid address of acceptable length whose domain is `test.com`, `example.com` or `temp.com` is reported as not real |
| Validators.RepeatAt | script.js:184 | the character at the index is not a line terminator and recurs at the next four indices |
| Validators.HasRepeatedRun | script.js:184 | `/(.)\1{4,}/`: some character other than a line terminator appears five times in a row |
| Validators.WordCount | script.js:188 | `split(/\s+/).length`: the number of pieces the string falls into when cut at every whitespace run |
| Validators.PhraseAt | script.js:198 | the phrase occurs at the index with ASCII letters compared case-insensitively, and no `[A-Za-z0-9_]` character sits directly before or after it. Without the `u` flag the pattern's case folding never maps a non-ASCII character onto an ASCII one and `\b` uses exactly `[A-Za-z0-9_]`, so this matches line 198 exactly |
| Validators.UpperRunAt | script.js:200 | ten ASCII capitals in a row start at the index |
| Validators.Matches | script.js:197-202 | each of the four spam patterns: one of the five phrases as a word, `$` followed by a digit, ten capitals in a row, three `!` in a row |
| Validators.LooksLikeSpam | script.js:204-208 | the loop returns the spam message exactly when one of the four patterns matches |
| Validators.ValidateMessage | script.js:169-211 | every error returned is one of the seven message messages |
| Validators.CheckMessage | script.js:172-208 | every error from the checks on the trimmed message is one of the seven message messages |
| Validators.MessageAcceptable | script.js:172-210 | what passes every message check: 10 to 1000 characters, no run of five, 2 to 199 whitespace runs (3 to 200 words) and no spam pattern |
| Validators.CheckMessageAcceptance | script.js:172-210 | the checks accept a trimmed message exactly when it has 10 to 1000 characters, no character five times in a row, 3 to 200 words and no spam pattern (both directions) |
| Validators.MessageAcceptance | script.js:169-211 | a message is accepted exactly when its trimmed form is acceptable in that sense (both directions) |
| Counter.BandFor | script.js:62-69 | the band is danger exactly above 950 characters, warning exactly from 801 to 950, normal exactly up to 800 |
| Counter.CounterText | script.js:60 | the counter text `<n> / 1000 characters` for a length n, with n written in decimal; line 78 writes the same text |
| Counter.MaxLengthTextIsDecimal | script.js:76-78 | the `1000` in the counter text is the decimal rendering of the maximum length |
| Counter.ShownLength | script.js:60 | the number a counter text starts with: the value of its digits before the first space |
| Counter.ShownLengthOfCounterText | script.js:60 | the number at the head of the counter text reads back as the current length |
| Form.Position | script.js:255 | every field has a position in the list name, email, message |
| Form.PerField.Set | script.js:213-252 | updating one field's entry changes that entry and leaves the other two unchanged |
| Form.FieldId | script.js:255 | the element id of each field, `name`, `email` and `message` |
| Form.Validate | script.js:216-222 | the field's installed `customValidation` applied to the raw value |
| Form.AllValid | script.js:255-268 | every field's installed rule accepts its value |
| Form.NameRule | script.js:16 | the rule installed for the name field is `validateName` |
| Form.EmailRule | script.js:21 | the rule installed for the email field is `validateEmail` |
| Form.MessageRule | script.js:27 | the rule installed for the message field is `validateMessage` |
| Form.Consistent | script.js:234-251 | a field never carries both classes, and its error region is shown exactly when it has `error` |
| Form.ShowError | script.js:239-243 | the marks after `showFieldError`: `success` removed, `error` added, the message written, the error region shown |
| Form.ClearError | script.js:246-251 | the marks after `clearFieldError`: `error` removed and the region hidden, with `success` and the text kept |
| Form.AfterValidation | script.js:224-231 | after validating a field its marks are consistent; it has `error` exactly when the rule failed and `success` exactly when it passed; the error text is the rule's message on failure and kept otherwise |
| Form.ValidationIdempotent | script.js:213-232 | validating a field twice with the same verdict leaves the same marks as once |
| Form.AfterReset | script.js:361-365 | after a reset a field has neither class, its error region is hidden and its last error text is kept |
| Form.Entry | script.js:266 | the summary entry of a failing field: its id, `: ` and its error text |
| Form.EntryIfFailing | script.js:261-266 | the field's summary entry when its rule fails, nothing when it passes |
| Form.EntriesFor | script.js:259-268 | the entries collected while visiting fields in order |
| Form.ErrorEntries | script.js:254-268 | the entries collected over name, email and message |
| Form.EntriesStep | script.js:259-268 | visiting one more field appends that field's entry, if any, to the error list |
| Form.AllPassStep | script.js:259-268 | the validity flag after one more field is the flag before it combined with that field's verdict |
| Form.EntriesEmpty | script.js:256-268 | the error list is empty exactly when every visited field passed |
| Form.AllPassFields | script.js:255-268 | passing the three fields in order is the same as all three rules accepting |
| Form.ErrorEntriesShape | script.js:254-272 | the summary lists the failing fields in the order name, email, message, each as `field: message`, and is empty exactly when all pass |
| Form.OnlyEmailFails | script.js:259-268 | when only the email rule fails, the summary is the single entry `email: <its message>` |
| Form.Marked | script.js:259-260 | the marks after `validateField` has run on each of the fields in turn |
| Form.MarkedStep | script.js:259-260 | visiting one more field updates only that field's marks, by its verdict |
| Form.MarkedFields | script.js:254-268 | after the visit every field's marks are its old marks updated by its own verdict |
| Form.VisitStep | script.js:259-268 | one pass of the forEach extends the marks, the error list and the validity flag exactly as visiting one more field prescribes |
| Form.ContactForm.Valid | script.js:2-369 | the invariant every handler keeps: consistent marks and a consistent display |
| Form.ContactForm.MarksValid | script.js:234-251 | every field's marks are consistent |
| Form.ContactForm.DisplayValid | script.js:58-350 | the counter text matches the message's length; spinner and disabled button go together; the label is `Sending...` exactly when the button is disabled; a disabled button means a send is pending; exactly one of the form and the success panel is shown |
| Form.ContactForm.constructor | script.js:2-33 | the form starts with the three validators installed, empty fields, clean marks, counter `0 / 1000 characters` in the normal band, no summary, an idle button, no pending send, and the form shown |
| Form.ContactForm.ShowFieldError | script.js:234-244 | the field loses `success`, gains `error`, its error text is the message and its error region is shown; no other field changes |
| Form.ContactForm.ClearFieldError | script.js:246-252 | the field loses `error` and its error region is hidden; `success` and the text are kept; no other field changes |
| Form.ContactForm.ValidateField | script.js:213-232 | returns true exactly when the installed rule accepts the field's value; only that field's marks change, to the validation outcome |
| Form.ContactForm.UpdateFormStats | script.js:274-291 | a non-empty error list is shown as the error summary; an empty list with the valid flag shows the all-valid summary; an empty list without it changes nothing |
| Form.ContactForm.HideFormStats | script.js:287-289 | the summary region is hidden (the delayed hide of the success summary) |
| Form.ContactForm.VisitField | script.js:259-267 | one pass of the loop: the field's verdict, its `field: message` entry when it fails, and its marks updated |
| Form.ContactForm.ValidateEach | script.js:255-268 | the loop over the three fields returns the all-valid flag and the error entries in field order, and sets every field's marks by its verdict |
| Form.ContactForm.ValidateAllFields | script.js:254-272 | returns true exactly when all three rules accept; every field is marked; the summary is shown, listing all failures or saying all fields are valid |
| Form.ContactForm.ShowLoadingState | script.js:316-320 | the button is disabled, the spinner shown and the label is `Sending...` |
| Form.ContactForm.HideLoadingState | script.js:322-326 | the button is enabled, the spinner hidden and the label is `Send Message` |
| Form.ContactForm.HandleSubmit | script.js:293-314 | a send starts exactly when all fields are valid; on failure the summary lists the errors, the button shakes and no send starts; on success the loading state is shown and one more send is pending; the form's invariant holds throughout |
| Form.ContactForm.StartSend | script.js:304-307 | the valid branch of the submit handler: the loading state is shown and one more send is pending, with the form's invariant kept |
| Form.ContactForm.EndShake | script.js:298-300 | the shake animation is cleared |
| Form.ContactForm.ShowSuccessMessage | script.js:343-346 | the form is hidden and the success panel shown |
| Form.ContactForm.SettleSend | script.js:306-313 | a finished send always restores the idle button and removes one pending send; a resolved send shows the success panel; a rejected send leaves the panels as they were |
| Form.ContactForm.UpdateCharacterCounter | script.js:73-79 | the counter text shows the current message length out of 1000 |
| Form.ContactForm.RefreshCounter | script.js:58-70 | the counter text shows the current length and the band is the one for that length |
| Form.ContactForm.ResetMarks | script.js:361-365 | every field loses both classes and hides its error region, keeping its last error text |
| Form.ContactForm.Input | script.js:39-51 | typing into a field sets its value and clears its error; for the message field both counter listeners refresh the text and the band; other fields leave the counter alone |
| Form.ContactForm.ResetForm | script.js:356-369 | all fields are empty; every field loses both classes and hides its error region; the form is shown again, the success panel and summary hidden; the counter text reads `0 / 1000 characters`; the band is left as it was |
| Scenarios.BlankName | script.js:96-98 | a name of three spaces is reported as required |
| Scenarios.CheckNameJo | script.js:100-120 | the trimmed name `Jo` passes every name check |
| Scenarios.ShortestName | script.js:93-121 | the two-letter name `Jo` is accepted |
| Scenarios.ComDomain | script.js:130 | the single label `com` is a whole domain under the pattern |
| Scenarios.OneLetterLabel | script.js:130 | `x.com` is a domain: the pattern admits a label of one character |
| Scenarios.TwoLabelDomain | script.js:130 | a label followed by `.com` is a domain |
| Scenarios.ExampleLabel | script.js:130 | `example` is a label |
| Scenarios.DomainLabel | script.js:130 | `domain` is a label |
| Scenarios.DotComAddress | script.js:130-141 | a local part, `@`, a label and `.com` match the pattern, and the `@` sits right after the local part |
| Scenarios.LowerCaseTrimmed | script.js:124 | the three example addresses have no surrounding whitespace and no capitals |
| Scenarios.Normalised | script.js:124 | such addresses are unchanged by trimming and lower-casing |
| Scenarios.UserAtExamplePieces | script.js:130 | `user@example.com` is `user`, `@`, `example` and `.com` |
| Scenarios.UserAtExampleLocal | script.js:130 | `user` is a valid local part |
| Scenarios.UserAtExampleParts | script.js:130-141 | `user@example.com` matches the pattern and its domain half is `example.com` |
| Scenarios.UserAtExampleChecked | script.js:126-164 | the normalised address `user@example.com` is reported as not real |
| Scenarios.UserAtExample | script.js:123-167 | `user@example.com` is reported as not real |
| Scenarios.DoubleDotLocalPieces | script.js:130 | `a..b@domain.com` is `a..b`, `@`, `domain` and `.com` |
| Scenarios.DoubleDotLocalLocal | script.js:130 | `a..b` is a valid local part, since the pattern allows dots anywhere before the `@` |
| Scenarios.DoubleDotLocalParts | script.js:130-141 | `a..b@domain.com` matches the pattern and its domain half is `domain.com` |
| Scenarios.DoubleDotLocalChecked | script.js:126-166 | the normalised address `a..b@domain.com` passes every check |
| Scenarios.DoubleDotLocal | script.js:123-167 | `a..b@domain.com` is accepted: consecutive dots are refused only in the domain |
| Scenarios.PlainAddressPieces | script.js:130 | `jo@domain.com` is `jo`, `@`, `domain` and `.com` |
| Scenarios.PlainAddressLocal | script.js:130 | `jo` is a valid local part |
| Scenarios.PlainAddressParts | script.js:130-141 | `jo@domain.com` matches the pattern and its domain half is `domain.com` |
| Scenarios.PlainAddressChecked | script.js:126-166 | the normalised address `jo@domain.com` passes every check |
| Scenarios.PlainAddress | script.js:123-167 | `jo@domain.com` is accepted |
| Scenarios.OrdinaryLocal | script.js:124-146 | a local part of 1 to 64 characters from the local-part class, with no capitals |
| Scenarios.OrdinaryDomain | script.js:124-164 | a pattern-matched domain of at least two characters, with no capitals, outside the denylist |
| Scenarios.AddressSyntax | script.js:130-141 | a local part, `@` and a domain match the pattern, and the `@` found is the one after the local part |
| Scenarios.AddressCharsNotBlank | script.js:124-130 | no character of the local-part or domain classes is whitespace |
| Scenarios.AddressEnds | script.js:124 | such an address has no whitespace at either end |
| Scenarios.AddressLower | script.js:124 | an address built from parts without capitals has no capitals |
| Scenarios.AddressChecked | script.js:126-166 | an ordinary local part, `@` and an ordinary domain, at most 254 characters in all, pass every check |
| Scenarios.AddressAccepted | script.js:123-167 | such an address is accepted as typed, since trimming and lower-casing leave it unchanged |
| Scenarios.OrdinaryAddress | script.js:123-167 | every address made of an ordinary local part, `@` and an ordinary domain, of at most 254 characters, is accepted |
| Scenarios.HelloWorldChars | script.js:184-188 | `Hello world` is one space between two words, is trimmed, and has no run of five |
| Scenarios.WorldChars | script.js:188 | `world` holds no whitespace |
| Scenarios.HelloWorldWords | script.js:188 | `Hello world` has word count 2 |
| Scenarios.HelloWorld | script.js:169-191 | `Hello world` is reported as having fewer than 3 words |
| Scenarios.TwoWordMessage | script.js:169-191 | every message whose trimmed form has 10 to 1000 characters, no run of five and at most one whitespace run is refused for having fewer than 3 words |
| Scenarios.RepeatedLettersRun | script.js:184 | `aaaaa bbbbb ccccc` contains a character repeated five times and is trimmed |
| Scenarios.RepeatedLetters | script.js:169-186 | `aaaaa bbbbb ccccc` is refused for excessive repetition |
| Scenarios.FiveLettersChecked | script.js:172-178 | the trimmed message `aaaaa` fails the length check |
| Scenarios.FiveLetters | script.js:176-186 | `aaaaa` is refused as too short, before the repetition check is reached |
| Scenarios.ShortGreetingChars | script.js:184-188 | `Hallo to you` has its first word before one space, is trimmed, and has no run of five |
| Scenarios.ShortGreetingTail | script.js:188 | `to you` is two words separated by one space |
| Scenarios.ShortGreetingWords | script.js:188 | `Hallo to you` has word count 3 |
| Scenarios.ShortGreetingNotSpam | script.js:197-208 | `Hallo to you` matches none of the four spam patterns |
| Scenarios.ShortGreeting | script.js:169-211 | `Hallo to you` is accepted |
| Scenarios.ThreeWordMessage | script.js:169-211 | every message whose trimmed form has 10 to 1000 characters, no run of five, exactly two whitespace runs and no spam pattern is accepted |
| Session.VisitVerdicts | script.js:10-28 | the installed rules accept `Jo`, `jo@domain.com` and `Hallo to you`, and refuse `user@example.com` as not real |
| Session.RefusedSubmit | script.js:293-302 | on an idle form with a name, a denylisted address and a three-word message, submitting sends nothing and the summary is the single entry `email: Please enter a real email address` |
| Session.CorrectedAddress | script.js:293-350 | after that refused submit the visitor corrects the address and a second submit sends, and once the send resolves the success panel is shown and the button is idle again |
| Session.Visit | script.js:2-33 | the same two submits on a freshly constructed form: the first is refused with that single entry, the second sends |
| Session.StaleCounterClass | script.js:58-70 | typing 900 characters puts the counter in the warning band; after a reset the text reads `0 / 1000 characters` while the band is still warning |

## Left out

- Element lookup, event listeners and the event objects are not modelled. Each listener becomes a direct call of the method it triggers. For example, an input event is `Form.ContactForm.Input` followed, for name and email, by the debounced `ValidateField`.
- Timers are not modelled, and the debounce of 500 ms and 800 ms is left out with them. Every delayed callback becomes an explicit method the caller invokes:
  - the 3000 ms hide of the success summary is `HideFormStats`;
  - the 500 ms end of the shake is `EndShake`;
  - the 2000 ms simulated send is `SettleSend`;
  - the 5000 ms return to the form is `ResetForm`.
- The `async`/`await` interleaving is not modelled. `HandleSubmit` starts a send and `SettleSend` finishes one, with the outcome as a parameter. `simulateFormSubmission` always resolves; the rejected outcome is kept because `handleSubmit` handles it.
- `showErrorMessage` is not modelled: it only calls `alert`. A rejected send therefore only restores the button.
- The `console.log` of the form data, the timestamp and the user agent are not modelled: they are output only.
- The summary's HTML markup (colours, emoji, bullets, the error count) is not modelled. The summary is the `Summary` datatype holding the list of `field: message` entries the markup is built from.
- The keyboard shortcut (Ctrl or Cmd with Enter) is not modelled as an event. It can dispatch a submit while the button is disabled, so `HandleSubmit` has no precondition on the button and sends are counted.
- The `maxlength` attribute read with `parseInt` is not modelled; it is taken to be 1000, the value `updateCharacterCounter` hard-codes. The band thresholds `0.8 * 1000` and `0.95 * 1000` are exactly 800 and 950 as doubles, so the model compares integers.
- The `required`, `minLength`, `maxLength` and `pattern` entries of `validationRules` are not modelled because the source never reads them. Only `customValidation` is modelled, as the `rules` field.
- The `commonDomains` list is not modelled because it never influences a verdict. It is only declared as `Validators.CommonDomains`.
- The initial page markup is not part of this model. The constructor assumes empty fields, the counter text `0 / 1000 characters` in the normal band, a visible form and a hidden success panel and summary.
- `form.reset()` is modelled as emptying the three fields.
- Text.ToLower: maps only ASCII capitals. The Unicode case mapping of `toLowerCase` is left out.
- Text.Trim: the whitespace set is the ECMAScript WhiteSpace and LineTerminator characters, as of one fixed Unicode version.
- Validators.HasRepeatedRun: the model compares characters where the source's `/(.)\1{4,}/` (no `u` flag) compares UTF-16 code units, so a run of five identical characters outside the Basic Multilingual Plane is flagged only in the model.
- String lengths count `char` values of `seq<char>`, not UTF-16 code units, so characters outside the Basic Multilingual Plane count once.
