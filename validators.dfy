/** The three field validators of ContactFormValidator. Each trims its input and runs
    an ordered chain of checks; the first failing check's message is the result and
    None stands for the source's null ("valid"). The regular expressions of the source
    are written out as predicates over the trimmed string. */
module Validators {
  import opened Wrappers
  import opened Text

  const NameRequired := "Name is required"
  const NameTooShort := "Name must be at least 2 characters long"
  const NameTooLong := "Name must not exceed 50 characters"
  const NameBadCharacters := "Name can only contain letters, spaces, hyphens, and apostrophes"
  const NameTooManyWords := "Please enter a valid name (too many words)"
  const NameExtraSpaces := "Please remove extra spaces from your name"

  const EmailRequired := "Email address is required"
  const EmailInvalid := "Please enter a valid email address"
  const EmailTooLong := "Email address is too long"
  const EmailLocalTooLong := "Email address local part is too long"
  const EmailBadDomain := "Please enter a valid domain name"
  const EmailDotAtEdge := "Domain name cannot start or end with a dot"
  const EmailDoubleDot := "Domain name cannot contain consecutive dots"
  const EmailNotReal := "Please enter a real email address"

  const MessageRequired := "Message is required"
  const MessageTooShort := "Message must be at least 10 characters long"
  const MessageTooLong := "Message must not exceed 1000 characters"
  const MessageRepetition := "Please avoid excessive repetition of characters"
  const MessageTooFewWords := "Message should contain at least 3 words"
  const MessageTooManyWords := "Message is too long (maximum 200 words)"
  const MessageSpam := "Message appears to contain spam-like content"

  const NameMessages: set<string> :=
    {NameRequired, NameTooShort, NameTooLong, NameBadCharacters, NameTooManyWords, NameExtraSpaces}
  const EmailMessages: set<string> :=
    {EmailRequired, EmailInvalid, EmailTooLong, EmailLocalTooLong, EmailBadDomain,
     EmailDotAtEdge, EmailDoubleDot, EmailNotReal}
  const MessageMessages: set<string> :=
    {MessageRequired, MessageTooShort, MessageTooLong, MessageRepetition,
     MessageTooFewWords, MessageTooManyWords, MessageSpam}

  // ---------------------------------------------------------------- name

  /** A member of the class [a-zA-Z\s'-]. */
  predicate IsNameChar(c: char) {
    IsAsciiLetter(c) || IsWhitespace(c) || c == '\'' || c == '-'
  }

  /** /^[a-zA-Z\s'-]+$/ */
  predicate MatchesNamePattern(t: string) {
    |t| > 0 && forall i :: 0 <= i < |t| ==> IsNameChar(t[i])
  }

  /** /\s{2,}/: two whitespace characters in a row somewhere in t. */
  predicate HasWhitespacePair(t: string) {
    exists i :: 0 <= i < |t| - 1 && IsWhitespace(t[i]) && IsWhitespace(t[i + 1])
  }

  function ValidateName(value: string): (r: Option<string>)
    ensures r.Some? ==> r.value in NameMessages
  {
    CheckName(Trim(value))
  }

  /** The checks of validateName on the trimmed value t. */
  function CheckName(t: string): (r: Option<string>)
    ensures r.Some? ==> r.value in NameMessages
  {
    if t == [] then Some(NameRequired)
    else if |t| < 2 then Some(NameTooShort)
    else if |t| > 50 then Some(NameTooLong)
    else if !MatchesNamePattern(t) then Some(NameBadCharacters)
    else if |Split(t, ' ')| > 5 then Some(NameTooManyWords)
    else if HasWhitespacePair(t) then Some(NameExtraSpaces)
    else None
  }

  /** What an accepted name is, stated as a conjunction over the trimmed value: at most
      four spaces is the same as at most five pieces when split on ' '. */
  predicate NameAcceptable(t: string) {
    && 2 <= |t| <= 50
    && (forall i :: 0 <= i < |t| ==> IsNameChar(t[i]))
    && Count(t, ' ') <= 4
    && !HasWhitespacePair(t)
  }

  lemma NameAcceptance(value: string)
    ensures ValidateName(value) == None <==> NameAcceptable(Trim(value))
  {
    SplitCount(Trim(value), ' ');
  }

  /** Blank input is reported as missing, never as too short or malformed. */
  lemma NameBlankIsRequired(value: string)
    requires forall i :: 0 <= i < |value| ==> IsWhitespace(value[i])
    ensures ValidateName(value) == Some(NameRequired)
  {
    TrimBlank(value);
  }

  /** Lengths 2 to 50 pass both length checks; anything longer than 50 is reported as too
      long, whatever characters it holds. */
  lemma NameLengthBounds(value: string)
    ensures 2 <= |Trim(value)| <= 50 ==>
      ValidateName(value) in {None, Some(NameBadCharacters), Some(NameTooManyWords), Some(NameExtraSpaces)}
    ensures |Trim(value)| > 50 ==> ValidateName(value) == Some(NameTooLong)
  {
    var t := Trim(value);
    assert ValidateName(value) == CheckName(t);
  }

  // ---------------------------------------------------------------- email

  /** The symbols of the local-part class. */
  const LocalSymbols: set<char> :=
    {'.', '!', '#', '$', '%', '&', '\'', '*', '+', '/', '=', '?', '^', '_', '`', '{', '|', '}', '~', '-'}

  /** A member of the local-part class [a-zA-Z0-9.!#$%&'*+/=?^_`{|}~-]. */
  predicate IsLocalChar(c: char) {
    IsAlphanumeric(c) || c in LocalSymbols
  }

  /** A member of [a-zA-Z0-9-]. */
  predicate IsLabelChar(c: char) {
    IsAlphanumeric(c) || c == '-'
  }

  /** [a-zA-Z0-9](?:[a-zA-Z0-9-]{0,61}[a-zA-Z0-9])?: 1 to 63 label characters, the first
      and the last alphanumeric. */
  predicate IsLabel(l: string) {
    && 1 <= |l| <= 63
    && IsAlphanumeric(l[0]) && IsAlphanumeric(l[|l| - 1])
    && forall i :: 0 <= i < |l| ==> IsLabelChar(l[i])
  }

  /** label(?:\.label)*: labels contain no dot, so the first label ends at the first dot. */
  predicate IsDomain(d: string)
    decreases |d|
  {
    var i := Find(d, '.');
    if i == |d| then IsLabel(d) else IsLabel(d[..i]) && IsDomain(d[i + 1..])
  }

  /** The email pattern: a non-empty local part, one '@', a domain. Neither part can hold
      an '@', so the '@' is the first one. */
  predicate IsEmailSyntax(t: string) {
    var i := Find(t, '@');
    && 0 < i < |t|
    && (forall j :: 0 <= j < i ==> IsLocalChar(t[j]))
    && IsDomain(t[i + 1..])
  }

  /** t.split('@')[0] */
  function LocalPart(t: string): string {
    Split(t, '@')[0]
  }

  /** t.split('@')[1], None standing for undefined. */
  function DomainPart(t: string): Option<string> {
    var parts := Split(t, '@');
    if |parts| > 1 then Some(parts[1]) else None
  }

  /** d.includes('..') */
  predicate ContainsDoubleDot(d: string) {
    exists i :: 0 <= i < |d| - 1 && d[i] == '.' && d[i + 1] == '.'
  }

  const SuspiciousDomains: seq<string> := ["test.com", "example.com", "temp.com"]

  /** Declared next to the denylist and consulted by no check. */
  const CommonDomains: seq<string> := ["gmail.com", "yahoo.com", "hotmail.com", "outlook.com", "aol.com"]

  function ValidateEmail(value: string): (r: Option<string>)
    ensures r.Some? ==> r.value in EmailMessages
  {
    CheckEmail(ToLower(Trim(value)))
  }

  /** The checks of validateEmail on the trimmed, lower-cased value t. */
  function CheckEmail(t: string): (r: Option<string>)
    ensures r.Some? ==> r.value in EmailMessages
  {
    if t == [] then Some(EmailRequired)
    else if !IsEmailSyntax(t) then Some(EmailInvalid)
    else if |t| > 254 then Some(EmailTooLong)
    else CheckParts(LocalPart(t), DomainPart(t))
  }

  /** The checks on the two halves of split('@'). */
  function CheckParts(local: string, domain: Option<string>): (r: Option<string>)
    ensures r.Some? ==> r.value in EmailMessages
  {
    if |local| > 64 then Some(EmailLocalTooLong)
    else if domain.None? || |domain.value| < 2 then Some(EmailBadDomain)
    else if domain.value[0] == '.' || domain.value[|domain.value| - 1] == '.' then Some(EmailDotAtEdge)
    else if ContainsDoubleDot(domain.value) then Some(EmailDoubleDot)
    else if domain.value in SuspiciousDomains then Some(EmailNotReal)
    else None
  }

  /** A label holds neither a dot nor an '@'. */
  lemma LabelChars(l: string)
    requires IsLabel(l)
    ensures '.' !in l && '@' !in l
  {
    forall i | 0 <= i < |l| ensures l[i] != '.' && l[i] != '@' {
      assert IsLabelChar(l[i]);
    }
  }

  /** A domain of the pattern neither starts nor ends with a dot and holds no '@'. */
  lemma {:induction false} DomainEnds(d: string)
    requires IsDomain(d)
    ensures d != [] && d[0] != '.' && d[|d| - 1] != '.'
    ensures '@' !in d
    decreases |d|
  {
    var i := Find(d, '.');
    if i == |d| {
      LabelChars(d);
    } else {
      var rest := d[i + 1..];
      DomainEnds(rest);
      LabelChars(d[..i]);
      assert d[0] == d[..i][0];
      assert d[|d| - 1] == rest[|rest| - 1];
      forall j | 0 <= j < |d| ensures d[j] != '@' {
        if j < i {
          assert d[j] == d[..i][j];
        } else if j > i {
          assert d[j] == rest[j - i - 1];
        }
      }
    }
  }

  /** A domain of the pattern is made of label characters and dots. */
  lemma {:induction false} DomainChars(d: string)
    requires IsDomain(d)
    ensures forall j :: 0 <= j < |d| ==> IsLabelChar(d[j]) || d[j] == '.'
    decreases |d|
  {
    var i := Find(d, '.');
    if i < |d| {
      var rest := d[i + 1..];
      DomainChars(rest);
      forall j | 0 <= j < |d| ensures IsLabelChar(d[j]) || d[j] == '.' {
        if j < i {
          assert d[j] == d[..i][j];
        } else if j > i {
          assert d[j] == rest[j - i - 1];
        }
      }
    }
  }

  /** A domain of the pattern never holds two dots in a row. */
  lemma {:induction false} DomainNoDoubleDot(d: string)
    requires IsDomain(d)
    ensures !ContainsDoubleDot(d)
    decreases |d|
  {
    var i := Find(d, '.');
    if i == |d| {
      LabelChars(d);
    } else {
      var rest := d[i + 1..];
      DomainEnds(rest);
      DomainNoDoubleDot(rest);
      forall j | 0 <= j < |d| - 1 ensures !(d[j] == '.' && d[j + 1] == '.') {
        if j < i - 1 {
          assert d[j] == d[..i][j];
        } else if j == i - 1 {
          assert d[j] == d[..i][i - 1];
        } else if j == i {
          assert d[j + 1] == rest[0];
        } else {
          assert d[j] == rest[j - i - 1] && d[j + 1] == rest[j - i];
        }
      }
    }
  }

  /** A domain of the pattern passes the dot checks of validateEmail. */
  lemma DomainShape(d: string)
    requires IsDomain(d)
    ensures d != [] && d[0] != '.' && d[|d| - 1] != '.' && !ContainsDoubleDot(d)
  {
    DomainEnds(d);
    DomainNoDoubleDot(d);
  }

  /** split('@') cuts an address of the pattern at its '@'. */
  lemma EmailHalves(t: string)
    requires IsEmailSyntax(t)
    ensures LocalPart(t) == t[..Find(t, '@')]
    ensures DomainPart(t) == Some(t[Find(t, '@') + 1..])
  {
    var i := Find(t, '@');
    DomainEnds(t[i + 1..]);
    SplitAbsent(t[i + 1..], '@');
  }

  /** An address of the pattern has exactly one '@'. */
  lemma EmailOneAt(t: string)
    requires IsEmailSyntax(t)
    ensures Count(t, '@') == 1
  {
    var i := Find(t, '@');
    DomainEnds(t[i + 1..]);
    SplitAbsent(t[i + 1..], '@');
    SplitCount(t, '@');
  }

  /** What an accepted address is, for the trimmed and lower-cased value. */
  predicate EmailAcceptable(t: string) {
    var i := Find(t, '@');
    && IsEmailSyntax(t)
    && |t| <= 254
    && i <= 64
    && |t[i + 1..]| >= 2
    && t[i + 1..] !in SuspiciousDomains
  }

  /** Once the domain has no dot at either end and no two dots in a row, only the
      local-length, domain-length and denylist checks remain. */
  lemma CheckPartsWithoutDotFaults(local: string, d: string)
    requires d != [] && d[0] != '.' && d[|d| - 1] != '.' && !ContainsDoubleDot(d)
    ensures CheckParts(local, Some(d)) == if |local| > 64 then Some(EmailLocalTooLong)
                                          else if |d| < 2 then Some(EmailBadDomain)
                                          else if d in SuspiciousDomains then Some(EmailNotReal)
                                          else None
  {
  }

  /** For an address of the pattern, what remains after the length check are the checks
      on the text before and after its one '@'. */
  lemma CheckEmailOfSyntax(t: string)
    requires IsEmailSyntax(t)
    ensures var i := Find(t, '@');
      CheckEmail(t) == if |t| > 254 then Some(EmailTooLong) else CheckParts(t[..i], Some(t[i + 1..]))
  {
    EmailHalves(t);
  }

  /** The checks of validateEmail on an address of the pattern, with the dot checks gone. */
  lemma CheckEmailSyntactic(t: string)
    requires IsEmailSyntax(t)
    ensures var i := Find(t, '@');
      CheckEmail(t) == if |t| > 254 then Some(EmailTooLong)
                       else if i > 64 then Some(EmailLocalTooLong)
                       else if |t[i + 1..]| < 2 then Some(EmailBadDomain)
                       else if t[i + 1..] in SuspiciousDomains then Some(EmailNotReal)
                       else None
  {
    var i := Find(t, '@');
    var d := t[i + 1..];
    CheckEmailOfSyntax(t);
    DomainShape(d);
    CheckPartsWithoutDotFaults(t[..i], d);
  }

  lemma EmailAcceptance(value: string)
    ensures ValidateEmail(value) == None <==> EmailAcceptable(ToLower(Trim(value)))
  {
    var t := ToLower(Trim(value));
    if IsEmailSyntax(t) {
      CheckEmailSyntactic(t);
    }
  }

  /** The two dot checks after the pattern can never fire. */
  lemma EmailDotChecksUnreachable(value: string)
    ensures ValidateEmail(value) != Some(EmailDotAtEdge)
    ensures ValidateEmail(value) != Some(EmailDoubleDot)
  {
    var t := ToLower(Trim(value));
    if IsEmailSyntax(t) {
      CheckEmailSyntactic(t);
    }
  }

  /** An accepted address has one '@', fits in 254 characters, has a local part of at
      most 64 and a domain of at least 2 characters. */
  lemma EmailAcceptedShape(value: string)
    requires ValidateEmail(value) == None
    ensures var t := ToLower(Trim(value));
      && Count(t, '@') == 1 && |t| <= 254
      && |LocalPart(t)| <= 64
      && DomainPart(t).Some? && |DomainPart(t).value| >= 2
  {
    var t := ToLower(Trim(value));
    EmailHalves(t);
    EmailOneAt(t);
  }

  /** A well-formed address whose domain is on the denylist is rejected as not real. */
  lemma EmailDenylisted(value: string)
    requires var t := ToLower(Trim(value));
      IsEmailSyntax(t) && |t| <= 254 && Find(t, '@') <= 64 && t[Find(t, '@') + 1..] in SuspiciousDomains
    ensures ValidateEmail(value) == Some(EmailNotReal)
  {
    CheckEmailSyntactic(ToLower(Trim(value)));
  }

  // ---------------------------------------------------------------- message

  /** The same character, not a line terminator, five times from i on. */
  predicate RepeatAt(t: string, i: int) {
    && 0 <= i < |t| - 4 && !IsLineTerminator(t[i])
    && t[i + 1] == t[i] && t[i + 2] == t[i] && t[i + 3] == t[i] && t[i + 4] == t[i]
  }

  /** /(.)\1{4,}/ */
  predicate HasRepeatedRun(t: string) {
    exists i :: 0 <= i < |t| && RepeatAt(t, i)
  }

  /** trimmedValue.split(/\s+/).length */
  function WordCount(t: string): nat {
    |SplitWhitespace(t)|
  }

  const SpamPhrases: seq<string> := ["buy now", "click here", "free money", "guaranteed", "no risk"]

  /** p occurs at i ignoring ASCII case, with a word boundary \b on both sides. */
  predicate PhraseAt(t: string, i: int, p: string) {
    && 0 <= i && i + |p| <= |t|
    && ToLower(t[i..i + |p|]) == p
    && (i == 0 || !IsWordChar(t[i - 1]))
    && (i + |p| == |t| || !IsWordChar(t[i + |p|]))
  }

  /** Ten ASCII capitals starting at i. */
  predicate UpperRunAt(t: string, i: int) {
    0 <= i <= |t| - 10 && forall j :: i <= j < i + 10 ==> IsAsciiUpper(t[j])
  }

  /** The four spam patterns, in the order the source tries them. */
  datatype SpamPattern =
    | Phrase        // /\b(buy now|click here|free money|guaranteed|no risk)\b/i
    | DollarAmount  // /\$+\d+/
    | Shouting      // /[A-Z]{10,}/
    | Exclamations  // /!{3,}/

  const SpamPatterns: seq<SpamPattern> := [Phrase, DollarAmount, Shouting, Exclamations]

  predicate Matches(p: SpamPattern, t: string) {
    match p
    case Phrase => exists k, i :: 0 <= k < |SpamPhrases| && 0 <= i < |t| && PhraseAt(t, i, SpamPhrases[k])
    case DollarAmount => exists i :: 0 <= i < |t| - 1 && t[i] == '$' && IsDigit(t[i + 1])
    case Shouting => exists i :: 0 <= i < |t| && UpperRunAt(t, i)
    case Exclamations => exists i :: 0 <= i < |t| - 2 && t[i] == '!' && t[i + 1] == '!' && t[i + 2] == '!'
  }

  /** The loop over the pattern list returns at the first pattern that matches; all of
      them give the same message, so only whether one matches matters. */
  predicate LooksLikeSpam(t: string) {
    exists k :: 0 <= k < |SpamPatterns| && Matches(SpamPatterns[k], t)
  }

  function ValidateMessage(value: string): (r: Option<string>)
    ensures r.Some? ==> r.value in MessageMessages
  {
    CheckMessage(Trim(value))
  }

  /** The checks of validateMessage on the trimmed value t. */
  function CheckMessage(t: string): (r: Option<string>)
    ensures r.Some? ==> r.value in MessageMessages
  {
    if t == [] then Some(MessageRequired)
    else if |t| < 10 then Some(MessageTooShort)
    else if |t| > 1000 then Some(MessageTooLong)
    else if HasRepeatedRun(t) then Some(MessageRepetition)
    else
      var words := WordCount(t);
      if words < 3 then Some(MessageTooFewWords)
      else if words > 200 then Some(MessageTooManyWords)
      else if LooksLikeSpam(t) then Some(MessageSpam)
      else None
  }

  /** What an accepted message is: the word count is one more than the number of
      whitespace runs, and a trimmed message has no run at either end. */
  predicate MessageAcceptable(t: string) {
    && 10 <= |t| <= 1000
    && !HasRepeatedRun(t)
    && 2 <= WhitespaceRuns(t) <= 199
    && !LooksLikeSpam(t)
  }

  lemma CheckMessageAcceptance(t: string)
    ensures CheckMessage(t) == None <==> MessageAcceptable(t)
  {
    assert CheckMessage(t) == None <==>
      (10 <= |t| <= 1000 && !HasRepeatedRun(t) && 3 <= WordCount(t) <= 200 && !LooksLikeSpam(t));
    SplitWhitespaceCount(t);
  }

  lemma MessageAcceptance(value: string)
    ensures ValidateMessage(value) == None <==> MessageAcceptable(Trim(value))
  {
    CheckMessageAcceptance(Trim(value));
  }
}
