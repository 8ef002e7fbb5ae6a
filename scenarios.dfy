/** Concrete inputs and the messages the validators give them. Each step is a lemma of
    its own, and a string under study is passed as a parameter equal to the literal,
    so that every proof stays small. */
module Scenarios {
  import opened Wrappers
  import opened Text
  import opened Validators

  /** Only spaces: reported as missing, not as malformed. */
  lemma BlankName()
    ensures ValidateName("   ") == Some(NameRequired)
  {
    NameBlankIsRequired("   ");
  }

  lemma CheckNameJo()
    ensures CheckName("Jo") == None
  {
    assert Find("Jo", ' ') == 2;
  }

  /** The shortest name accepted. */
  lemma ShortestName()
    ensures ValidateName("Jo") == None
  {
    var t := "Jo";
    assert Trim(t) == t by { TrimUnchanged(t); }
    assert CheckName(t) == None by { CheckNameJo(); }
  }

  lemma ComDomain()
    ensures IsDomain("com")
  {
    FindFirst("com", '.', 3);
  }

  lemma TwoLabelDomain(d: string, first: string)
    requires d == first + ".com" && IsLabel(first)
    ensures IsDomain(d)
  {
    FindFirst(d, '.', |first|);
    assert d[..|first|] == first;
    assert d[|first| + 1..] == "com";
    ComDomain();
  }

  /** The pattern's labels may be a single character long. */
  lemma OneLetterLabel()
    ensures IsDomain("x.com")
  {
    TwoLabelDomain("x.com", "x");
  }

  lemma ExampleLabel(l: string)
    requires l == "example"
    ensures IsLabel(l)
  {
  }

  lemma DomainLabel(l: string)
    requires l == "domain"
    ensures IsLabel(l)
  {
  }

  /** local@first.com is an address whenever local is made of local-part characters
      and first is a label. */
  lemma DotComAddress(t: string, local: string, first: string)
    requires t == local + "@" + first + ".com"
    requires local != [] && forall j :: 0 <= j < |local| ==> IsLocalChar(local[j])
    requires IsLabel(first)
    ensures IsEmailSyntax(t)
    ensures Find(t, '@') == |local| && t[|local| + 1..] == first + ".com"
  {
    var domain := first + ".com";
    TwoLabelDomain(domain, first);
    assert t == local + "@" + domain;
    AddressSyntax(t, local, domain);
  }

  /** The three addresses below are already trimmed and in lower case. */
  lemma LowerCaseTrimmed(t: string)
    requires t == "user@example.com" || t == "a..b@domain.com" || t == "jo@domain.com"
    ensures t != [] && !IsWhitespace(t[0]) && !IsWhitespace(t[|t| - 1])
    ensures forall i :: 0 <= i < |t| ==> !IsAsciiUpper(t[i])
  {
  }

  /** A value already trimmed and in lower case is its own normal form. */
  lemma Normalised(t: string)
    requires t != [] && !IsWhitespace(t[0]) && !IsWhitespace(t[|t| - 1])
    requires forall i :: 0 <= i < |t| ==> !IsAsciiUpper(t[i])
    ensures ToLower(Trim(t)) == t
  {
    TrimUnchanged(t);
    ToLowerUnchanged(t);
  }

  lemma UserAtExamplePieces(t: string, local: string, first: string)
    requires t == "user@example.com" && local == "user" && first == "example"
    ensures t == local + "@" + first + ".com" && first + ".com" == "example.com"
  {
  }

  lemma UserAtExampleLocal(local: string)
    requires local == "user"
    ensures local != [] && forall j :: 0 <= j < |local| ==> IsLocalChar(local[j]) && local[j] != '@'
  {
  }

  lemma UserAtExampleParts(t: string)
    requires t == "user@example.com"
    ensures IsEmailSyntax(t) && Find(t, '@') == 4 && t[5..] == "example.com"
  {
    UserAtExampleLocal("user");
    ExampleLabel("example");
    UserAtExamplePieces(t, "user", "example");
    DotComAddress(t, "user", "example");
  }

  lemma UserAtExampleChecked(t: string)
    requires t == "user@example.com"
    ensures CheckEmail(t) == Some(EmailNotReal)
  {
    UserAtExampleParts(t);
    assert t[5..] == SuspiciousDomains[1];
    CheckEmailSyntactic(t);
  }

  /** A syntactically valid address on a denylisted domain. */
  lemma UserAtExample(t: string)
    requires t == "user@example.com"
    ensures ValidateEmail(t) == Some(EmailNotReal)
  {
    LowerCaseTrimmed(t);
    Normalised(t);
    UserAtExampleChecked(t);
  }

  lemma DoubleDotLocalPieces(t: string, local: string, first: string)
    requires t == "a..b@domain.com" && local == "a..b" && first == "domain"
    ensures t == local + "@" + first + ".com" && first + ".com" == "domain.com"
  {
  }

  lemma DoubleDotLocalLocal(local: string)
    requires local == "a..b"
    ensures local != [] && forall j :: 0 <= j < |local| ==> IsLocalChar(local[j]) && local[j] != '@'
  {
  }

  lemma DoubleDotLocalParts(t: string)
    requires t == "a..b@domain.com"
    ensures IsEmailSyntax(t) && Find(t, '@') == 4 && t[5..] == "domain.com"
  {
    DoubleDotLocalLocal("a..b");
    DomainLabel("domain");
    DoubleDotLocalPieces(t, "a..b", "domain");
    DotComAddress(t, "a..b", "domain");
  }

  lemma DoubleDotLocalChecked(t: string)
    requires t == "a..b@domain.com"
    ensures CheckEmail(t) == None
  {
    DoubleDotLocalParts(t);
    CheckEmailSyntactic(t);
  }

  /** Two dots in a row in the local part pass: only the domain's dots are checked. */
  lemma DoubleDotLocal(t: string)
    requires t == "a..b@domain.com"
    ensures ValidateEmail(t) == None
  {
    LowerCaseTrimmed(t);
    Normalised(t);
    DoubleDotLocalChecked(t);
  }

  lemma HelloWorldChars(t: string)
    requires t == "Hello world"
    ensures NoWhitespace(t[..5]) && IsWhitespace(t[5]) && !IsWhitespace(t[6]) && t[6..] == "world"
    ensures !IsWhitespace(t[0]) && !IsWhitespace(t[|t| - 1])
    ensures !HasRepeatedRun(t)
  {
  }

  lemma WorldChars(t: string)
    requires t == "world"
    ensures NoWhitespace(t)
  {
  }

  lemma HelloWorldWords(t: string)
    requires t == "Hello world"
    ensures WordCount(t) == 2
  {
    HelloWorldChars(t);
    WorldChars(t[6..]);
    SplitWhitespaceStep(t, 5);
    SplitWhitespaceWord(t[6..]);
  }

  /** Two words of text: long enough, but one word short. */
  lemma HelloWorld(t: string)
    requires t == "Hello world"
    ensures ValidateMessage(t) == Some(MessageTooFewWords)
  {
    HelloWorldChars(t);
    TrimUnchanged(t);
    HelloWorldWords(t);
  }

  /** Any message that is long enough and free of repetition but holds at most one run
      of whitespace, so at most two words, is one word short. */
  lemma TwoWordMessage(value: string)
    requires var t := Trim(value); 10 <= |t| <= 1000 && !HasRepeatedRun(t) && WhitespaceRuns(t) <= 1
    ensures ValidateMessage(value) == Some(MessageTooFewWords)
  {
    SplitWhitespaceCount(Trim(value));
  }

  /** Five equal letters in a row are caught before the words are counted. */
  lemma RepeatedLetters(t: string)
    requires t == "aaaaa bbbbb ccccc"
    ensures ValidateMessage(t) == Some(MessageRepetition)
  {
    RepeatedLettersRun(t);
    TrimUnchanged(t);
  }

  lemma RepeatedLettersRun(t: string)
    requires t == "aaaaa bbbbb ccccc"
    ensures HasRepeatedRun(t)
    ensures !IsWhitespace(t[0]) && !IsWhitespace(t[|t| - 1])
  {
    assert RepeatAt(t, 0);
  }

  lemma FiveLettersChecked(t: string)
    requires t == "aaaaa"
    ensures CheckMessage(t) == Some(MessageTooShort)
  {
    assert t != [] && |t| == 5;
  }

  /** Five equal letters alone are too short a message for the repetition check to be reached. */
  lemma FiveLetters(t: string)
    requires t == "aaaaa"
    ensures ValidateMessage(t) == Some(MessageTooShort)
  {
    assert !IsWhitespace(t[0]) && !IsWhitespace(t[|t| - 1]);
    TrimUnchanged(t);
    FiveLettersChecked(t);
  }

  lemma PlainAddressPieces(t: string, local: string, first: string)
    requires t == "jo@domain.com" && local == "jo" && first == "domain"
    ensures t == local + "@" + first + ".com" && first + ".com" == "domain.com"
  {
  }

  lemma PlainAddressLocal(local: string)
    requires local == "jo"
    ensures local != [] && forall j :: 0 <= j < |local| ==> IsLocalChar(local[j]) && local[j] != '@'
  {
  }

  lemma PlainAddressParts(t: string)
    requires t == "jo@domain.com"
    ensures IsEmailSyntax(t) && Find(t, '@') == 2 && t[3..] == "domain.com"
  {
    PlainAddressLocal("jo");
    DomainLabel("domain");
    PlainAddressPieces(t, "jo", "domain");
    DotComAddress(t, "jo", "domain");
  }

  lemma PlainAddressChecked(t: string)
    requires t == "jo@domain.com"
    ensures CheckEmail(t) == None
  {
    PlainAddressParts(t);
    CheckEmailSyntactic(t);
  }

  lemma PlainAddress(t: string)
    requires t == "jo@domain.com"
    ensures ValidateEmail(t) == None
  {
    LowerCaseTrimmed(t);
    Normalised(t);
    PlainAddressChecked(t);
  }

  /** A local part of at most 64 local-part characters, in lower case. */
  predicate OrdinaryLocal(local: string) {
    && 0 < |local| <= 64
    && forall j :: 0 <= j < |local| ==> IsLocalChar(local[j]) && !IsAsciiUpper(local[j])
  }

  /** A domain of the pattern, in lower case, at least two characters long and off the
      denylist. */
  predicate OrdinaryDomain(domain: string) {
    && IsDomain(domain) && |domain| >= 2 && domain !in SuspiciousDomains
    && forall j :: 0 <= j < |domain| ==> !IsAsciiUpper(domain[j])
  }

  /** local@domain matches the pattern, with the '@' right after the local part. */
  lemma AddressSyntax(t: string, local: string, domain: string)
    requires t == local + "@" + domain
    requires local != [] && forall j :: 0 <= j < |local| ==> IsLocalChar(local[j])
    requires IsDomain(domain)
    ensures IsEmailSyntax(t) && Find(t, '@') == |local| && t[|local| + 1..] == domain
  {
    assert t[..|local|] == local;
    assert t[|local| + 1..] == domain;
    forall j | 0 <= j < |local| ensures t[j] != '@' {
      assert IsLocalChar(t[j]);
    }
    FindFirst(t, '@', |local|);
  }

  /** Neither a local-part character nor a domain character is whitespace. */
  lemma AddressCharsNotBlank(c: char)
    requires IsLocalChar(c) || IsLabelChar(c) || c == '.'
    ensures !IsWhitespace(c)
  {
  }

  /** local@domain starts with a local-part character and ends with a domain character. */
  lemma AddressEnds(t: string, local: string, domain: string)
    requires t == local + "@" + domain
    requires local != [] && IsLocalChar(local[0])
    requires IsDomain(domain)
    ensures t != [] && !IsWhitespace(t[0]) && !IsWhitespace(t[|t| - 1])
  {
    DomainEnds(domain);
    DomainChars(domain);
    assert t[0] == local[0];
    AddressCharsNotBlank(t[0]);
    assert t[|t| - 1] == domain[|domain| - 1];
    AddressCharsNotBlank(t[|t| - 1]);
  }

  /** local@domain has no capital when neither half has one. */
  lemma AddressLower(t: string, local: string, domain: string)
    requires t == local + "@" + domain
    requires forall j :: 0 <= j < |local| ==> !IsAsciiUpper(local[j])
    requires forall j :: 0 <= j < |domain| ==> !IsAsciiUpper(domain[j])
    ensures forall j :: 0 <= j < |t| ==> !IsAsciiUpper(t[j])
  {
    forall j | 0 <= j < |t| ensures !IsAsciiUpper(t[j]) {
      if j < |local| {
        assert t[j] == local[j];
      } else if j > |local| {
        assert t[j] == domain[j - |local| - 1];
      }
    }
  }

  /** The checks of validateEmail on the normalised value pass on an ordinary address. */
  lemma AddressChecked(t: string, local: string, domain: string)
    requires t == local + "@" + domain
    requires OrdinaryLocal(local) && OrdinaryDomain(domain) && |t| <= 254
    ensures CheckEmail(t) == None
  {
    AddressSyntax(t, local, domain);
    CheckEmailSyntactic(t);
  }

  /** An ordinary address t == local@domain of at most 254 characters passes. */
  lemma AddressAccepted(t: string, local: string, domain: string)
    requires t == local + "@" + domain
    requires OrdinaryLocal(local) && OrdinaryDomain(domain) && |t| <= 254
    ensures ValidateEmail(t) == None
  {
    AddressEnds(t, local, domain);
    AddressLower(t, local, domain);
    Normalised(t);
    AddressChecked(t, local, domain);
  }

  /** An ordinary address passes: a lower-case local part of at most 64 local-part
      characters, '@', and a lower-case domain of the pattern, at least two characters long
      and off the denylist, in at most 254 characters. */
  lemma OrdinaryAddress(local: string, domain: string)
    requires OrdinaryLocal(local) && OrdinaryDomain(domain)
    requires |local| + 1 + |domain| <= 254
    ensures ValidateEmail(local + "@" + domain) == None
  {
    AddressAccepted(local + "@" + domain, local, domain);
  }

  lemma ShortGreetingChars(t: string)
    requires t == "Hallo to you"
    ensures NoWhitespace(t[..5]) && IsWhitespace(t[5]) && !IsWhitespace(t[6]) && t[6..] == "to you"
    ensures !IsWhitespace(t[0]) && !IsWhitespace(t[|t| - 1])
    ensures !HasRepeatedRun(t)
  {
  }

  lemma ShortGreetingTail(t: string)
    requires t == "to you"
    ensures NoWhitespace(t[..2]) && IsWhitespace(t[2]) && !IsWhitespace(t[3]) && NoWhitespace(t[3..])
  {
  }

  lemma ShortGreetingWords(t: string)
    requires t == "Hallo to you"
    ensures WordCount(t) == 3
  {
    ShortGreetingChars(t);
    ShortGreetingTail(t[6..]);
    SplitWhitespaceStep(t, 5);
    SplitWhitespaceStep(t[6..], 2);
    SplitWhitespaceWord(t[6..][3..]);
  }

  lemma ShortGreetingNotSpam(t: string)
    requires t == "Hallo to you"
    ensures !LooksLikeSpam(t)
  {
    forall k, i | 0 <= k < |SpamPhrases| && 0 <= i < |t| ensures !PhraseAt(t, i, SpamPhrases[k]) {
    }
    forall i | 0 <= i < |t| ensures !UpperRunAt(t, i) {
      if i <= |t| - 10 {
        assert !IsAsciiUpper(t[2]);
      }
    }
  }

  /** Three plain words are a message. */
  lemma ShortGreeting(t: string)
    requires t == "Hallo to you"
    ensures ValidateMessage(t) == None
  {
    ShortGreetingChars(t);
    TrimUnchanged(t);
    ShortGreetingWords(t);
    ShortGreetingNotSpam(t);
  }

  /** Any message of 10 to 1000 characters with no run of five, exactly two runs of
      whitespace inside it, so three words, and no spam pattern is accepted. */
  lemma ThreeWordMessage(value: string)
    requires var t := Trim(value);
      10 <= |t| <= 1000 && !HasRepeatedRun(t) && WhitespaceRuns(t) == 2 && !LooksLikeSpam(t)
    ensures ValidateMessage(value) == None
  {
    MessageAcceptance(value);
  }
}
