/** Character classes and string operations of ECMAScript that the validators rely on:
    String.prototype.trim, split with a one-character or a /\s+/ separator, indexOf,
    ASCII lower-casing, and the decimal rendering of a number in a template literal.
    Strings are sequences of characters; a length is the number of characters. */
module Text {

  /** LineTerminator: the characters that `.` does not match without the s flag. */
  predicate IsLineTerminator(c: char) {
    c == '\n' || c == '\r' || c == '\U{2028}' || c == '\U{2029}'
  }

  /** WhiteSpace or LineTerminator: what trim removes, what \s matches and what
      split(/\s+/) splits on (one set in ECMAScript). */
  predicate IsWhitespace(c: char) {
    || c == '\t' || c == '\U{B}' || c == '\U{C}' || c == ' ' || c == '\U{A0}'
    || c == '\U{FEFF}' || c == '\U{1680}' || ('\U{2000}' <= c <= '\U{200A}')
    || c == '\U{202F}' || c == '\U{205F}' || c == '\U{3000}'
    || IsLineTerminator(c)
  }

  predicate NoWhitespace(s: string) {
    forall i :: 0 <= i < |s| ==> !IsWhitespace(s[i])
  }

  predicate IsAsciiUpper(c: char) { 'A' <= c <= 'Z' }
  predicate IsAsciiLower(c: char) { 'a' <= c <= 'z' }
  predicate IsAsciiLetter(c: char) { IsAsciiUpper(c) || IsAsciiLower(c) }
  predicate IsDigit(c: char) { '0' <= c <= '9' }
  predicate IsAlphanumeric(c: char) { IsAsciiLetter(c) || IsDigit(c) }

  /** \w (and the word side of \b) in a pattern without the u flag. */
  predicate IsWordChar(c: char) { IsAlphanumeric(c) || c == '_' }

  /** toLowerCase restricted to ASCII: A-Z become a-z, every other character stays. */
  function LowerChar(c: char): (r: char)
    ensures !IsAsciiUpper(r)
    ensures IsAsciiUpper(c) ==> IsAsciiLower(r) && r as int - c as int == 'a' as int - 'A' as int
    ensures !IsAsciiUpper(c) ==> r == c
  {
    if IsAsciiUpper(c) then (c as int - 'A' as int + 'a' as int) as char else c
  }

  function ToLower(s: string): (r: string)
    ensures |r| == |s|
    ensures forall i :: 0 <= i < |s| ==> r[i] == LowerChar(s[i])
    ensures forall i :: 0 <= i < |r| ==> !IsAsciiUpper(r[i])
  {
    seq(|s|, i requires 0 <= i < |s| => LowerChar(s[i]))
  }

  /** A string without ASCII capitals is its own lower-case form. */
  lemma ToLowerUnchanged(s: string)
    requires forall i :: 0 <= i < |s| ==> !IsAsciiUpper(s[i])
    ensures ToLower(s) == s
  {
  }

  /** s without its leading whitespace. */
  function TrimStart(s: string): (r: string)
    ensures |r| <= |s| && r == s[|s| - |r|..]
    ensures forall i :: 0 <= i < |s| - |r| ==> IsWhitespace(s[i])
    ensures r == [] || !IsWhitespace(r[0])
    decreases |s|
  {
    if s != [] && IsWhitespace(s[0]) then TrimStart(s[1..]) else s
  }

  /** s without its trailing whitespace. */
  function TrimEnd(s: string): (r: string)
    ensures |r| <= |s| && r == s[..|r|]
    ensures forall i :: |r| <= i < |s| ==> IsWhitespace(s[i])
    ensures r == [] || !IsWhitespace(r[|r| - 1])
    decreases |s|
  {
    if s != [] && IsWhitespace(s[|s| - 1]) then TrimEnd(s[..|s| - 1]) else s
  }

  /** String.prototype.trim: the slice of s left once the whitespace at both ends is cut,
      starting where TrimStart starts. */
  function Trim(s: string): (r: string)
    ensures r == [] || (!IsWhitespace(r[0]) && !IsWhitespace(r[|r| - 1]))
    ensures var k := |s| - |TrimStart(s)|;
      && k + |r| <= |s| && r == s[k..k + |r|]
      && (forall i :: 0 <= i < k ==> IsWhitespace(s[i]))
      && (forall i :: k + |r| <= i < |s| ==> IsWhitespace(s[i]))
  {
    var u := TrimStart(s);
    var r := TrimEnd(u);
    TrimSlice(s, u, r);
    r
  }

  /** A prefix r of the suffix u of s is a slice of s, and whatever follows r in u
      follows it in s. */
  lemma TrimSlice(s: string, u: string, r: string)
    requires |u| <= |s| && u == s[|s| - |u|..]
    requires |r| <= |u| && r == u[..|r|]
    requires forall i :: |r| <= i < |u| ==> IsWhitespace(u[i])
    ensures var k := |s| - |u|;
      && r == s[k..k + |r|]
      && (forall i :: k + |r| <= i < |s| ==> IsWhitespace(s[i]))
  {
    var k := |s| - |u|;
    assert forall i :: k <= i < |s| ==> s[i] == u[i - k];
  }

  /** A value trims to the empty string exactly when it is all whitespace. */
  lemma TrimBlank(s: string)
    ensures Trim(s) == [] <==> forall i :: 0 <= i < |s| ==> IsWhitespace(s[i])
  {
  }

  /** A string with no whitespace at either end is its own trim. */
  lemma TrimUnchanged(s: string)
    requires s == [] || (!IsWhitespace(s[0]) && !IsWhitespace(s[|s| - 1]))
    ensures Trim(s) == s
  {
    assert TrimStart(s) == s;
    assert TrimEnd(s) == s;
  }

  /** Trimming twice is trimming once. */
  lemma TrimIdempotent(s: string)
    ensures Trim(Trim(s)) == Trim(s)
  {
    var t := Trim(s);
    assert TrimStart(t) == t;
    assert TrimEnd(t) == t;
  }

  /** Index of the first c in s (indexOf), or |s| when c does not occur. */
  function Find(s: string, c: char): (i: nat)
    ensures i <= |s|
    ensures i < |s| ==> s[i] == c
    ensures forall j :: 0 <= j < i ==> s[j] != c
    decreases |s|
  {
    if s == [] || s[0] == c then 0 else 1 + Find(s[1..], c)
  }

  /** The three properties of Find determine it. */
  lemma {:induction false} FindFirst(s: string, c: char, i: nat)
    requires i <= |s| && (i < |s| ==> s[i] == c)
    requires forall j :: 0 <= j < i ==> s[j] != c
    ensures Find(s, c) == i
  {
    if 0 < i {
      assert s[0] != c;
      FindFirst(s[1..], c, i - 1);
    }
  }

  /** Index of the first whitespace character of s, or |s| when there is none. */
  function FindWhitespace(s: string): (i: nat)
    ensures i <= |s|
    ensures i < |s| ==> IsWhitespace(s[i])
    ensures NoWhitespace(s[..i])
    decreases |s|
  {
    if s == [] || IsWhitespace(s[0]) then 0 else 1 + FindWhitespace(s[1..])
  }

  /** The number of occurrences of c in s. */
  function Count(s: string, c: char): nat
    decreases |s|
  {
    if s == [] then 0 else (if s[0] == c then 1 else 0) + Count(s[1..], c)
  }

  lemma {:induction false} CountAppend(a: string, b: string, c: char)
    ensures Count(a + b, c) == Count(a, c) + Count(b, c)
    decreases |a|
  {
    if a == [] {
      assert a + b == b;
    } else {
      assert (a + b)[1..] == a[1..] + b;
      CountAppend(a[1..], b, c);
    }
  }

  lemma {:induction false} CountAbsent(s: string, c: char)
    requires forall i :: 0 <= i < |s| ==> s[i] != c
    ensures Count(s, c) == 0
    decreases |s|
  {
    if s != [] {
      CountAbsent(s[1..], c);
    }
  }

  /** s.split(c) for a one-character string c: the pieces between the occurrences of c. */
  function Split(s: string, c: char): (parts: seq<string>)
    ensures |parts| >= 1
    ensures forall k :: 0 <= k < |parts| ==> c !in parts[k]
    decreases |s|
  {
    var i := Find(s, c);
    if i == |s| then [s] else [s[..i]] + Split(s[i + 1..], c)
  }

  /** parts.join(c). */
  function Join(parts: seq<string>, c: char): string
    decreases |parts|
  {
    if |parts| == 0 then "" else if |parts| == 1 then parts[0] else parts[0] + [c] + Join(parts[1..], c)
  }

  /** Splitting and joining again gives back the string. */
  lemma {:induction false} JoinSplit(s: string, c: char)
    ensures Join(Split(s, c), c) == s
    decreases |s|
  {
    var i := Find(s, c);
    if i < |s| {
      var rest := s[i + 1..];
      var tail := Split(rest, c);
      var parts := [s[..i]] + tail;
      assert Split(s, c) == parts;
      JoinSplit(rest, c);
      assert parts[1..] == tail;
      assert Join(parts, c) == s[..i] + [c] + Join(tail, c);
      assert s == s[..i] + [c] + rest;
    }
  }

  /** There is one piece more than there are separators. */
  lemma {:induction false} SplitCount(s: string, c: char)
    ensures |Split(s, c)| == Count(s, c) + 1
    decreases |s|
  {
    var i := Find(s, c);
    assert s == s[..i] + s[i..];
    CountAppend(s[..i], s[i..], c);
    CountAbsent(s[..i], c);
    if i == |s| {
      assert s[i..] == [];
    } else {
      assert s[i..] == [c] + s[i + 1..];
      CountAppend([c], s[i + 1..], c);
      SplitCount(s[i + 1..], c);
    }
  }

  /** A string without c is a single piece. */
  lemma SplitAbsent(s: string, c: char)
    requires c !in s
    ensures Split(s, c) == [s]
  {
  }

  /** s.split(/\s+/): the pieces between maximal runs of whitespace. */
  function SplitWhitespace(s: string): (parts: seq<string>)
    ensures |parts| >= 1
    ensures forall k :: 0 <= k < |parts| ==> NoWhitespace(parts[k])
    decreases |s|
  {
    var i := FindWhitespace(s);
    if i == |s| then
      assert s[..i] == s;
      [s]
    else
      var rest := TrimStart(s[i..]);
      assert |rest| < |s[i..]|;
      [s[..i]] + SplitWhitespace(rest)
  }

  /** The three properties of FindWhitespace determine it. */
  lemma {:induction false} FindWhitespaceFirst(s: string, i: nat)
    requires i <= |s| && (i < |s| ==> IsWhitespace(s[i])) && NoWhitespace(s[..i])
    ensures FindWhitespace(s) == i
  {
    if 0 < i {
      assert s[..i][0] == s[0];
      assert s[1..][..i - 1] == s[..i][1..];
      FindWhitespaceFirst(s[1..], i - 1);
    }
  }

  /** A string without whitespace is one piece. */
  lemma SplitWhitespaceWord(s: string)
    requires NoWhitespace(s)
    ensures SplitWhitespace(s) == [s]
  {
    FindWhitespaceFirst(s, |s|);
  }

  /** A word followed by one whitespace character and then a non-whitespace character:
      the word is the first piece and the split goes on after the separator. */
  lemma SplitWhitespaceStep(s: string, i: nat)
    requires i + 1 < |s| && NoWhitespace(s[..i]) && IsWhitespace(s[i]) && !IsWhitespace(s[i + 1])
    ensures SplitWhitespace(s) == [s[..i]] + SplitWhitespace(s[i + 1..])
  {
    FindWhitespaceFirst(s, i);
    assert TrimStart(s[i..]) == TrimStart(s[i..][1..]);
    assert s[i..][1..] == s[i + 1..];
  }

  /** The number of maximal runs of whitespace in s. */
  function WhitespaceRuns(s: string): nat
    decreases |s|
  {
    if s == [] then 0
    else if IsWhitespace(s[0]) then 1 + WhitespaceRuns(TrimStart(s))
    else WhitespaceRuns(s[1..])
  }

  lemma {:induction false} WhitespaceRunsSkip(s: string, i: nat)
    requires i <= |s| && NoWhitespace(s[..i])
    ensures WhitespaceRuns(s) == WhitespaceRuns(s[i..])
    decreases i
  {
    if i > 0 {
      assert !IsWhitespace(s[..i][0]);
      assert s[1..][..i - 1] == s[1..i];
      assert s[1..][i - 1..] == s[i..];
      WhitespaceRunsSkip(s[1..], i - 1);
    }
  }

  /** split(/\s+/) yields one piece more than there are runs of whitespace. */
  lemma {:induction false} SplitWhitespaceCount(s: string)
    ensures |SplitWhitespace(s)| == WhitespaceRuns(s) + 1
    decreases |s|
  {
    var i := FindWhitespace(s);
    WhitespaceRunsSkip(s, i);
    if i < |s| {
      var rest := TrimStart(s[i..]);
      assert TrimStart(s[i..]) == TrimStart(s[i..][1..]);
      SplitWhitespaceCount(rest);
    }
  }

  /** On a string with no whitespace at either end that holds some whitespace, the first
      piece is a word and what follows the first run again has no whitespace at either end. */
  lemma FirstWordSplit(s: string)
    requires s != [] && !IsWhitespace(s[0]) && !IsWhitespace(s[|s| - 1])
    requires FindWhitespace(s) < |s|
    ensures var i := FindWhitespace(s); var rest := TrimStart(s[i..]);
      && 0 < i && |rest| < |s|
      && rest != [] && !IsWhitespace(rest[0]) && !IsWhitespace(rest[|rest| - 1])
      && SplitWhitespace(s) == [s[..i]] + SplitWhitespace(rest)
  {
    var i := FindWhitespace(s);
    var rest := TrimStart(s[i..]);
    assert rest != [] by {
      assert !IsWhitespace(s[i..][|s| - 1 - i]);
    }
    assert rest[|rest| - 1] == s[|s| - 1];
  }

  /** Putting a non-empty word in front of a list of non-empty words keeps every entry
      non-empty. */
  lemma ConsWords(w: string, tail: seq<string>)
    requires w != [] && forall k :: 0 <= k < |tail| ==> tail[k] != []
    ensures forall k :: 0 <= k < |[w] + tail| ==> ([w] + tail)[k] != []
  {
    forall k | 0 <= k < |[w] + tail| ensures ([w] + tail)[k] != [] {
      if k > 0 {
        assert ([w] + tail)[k] == tail[k - 1];
      }
    }
  }

  /** When s has no whitespace at either end, every piece of split(/\s+/) is a word. */
  lemma {:induction false} SplitWhitespaceWords(s: string)
    requires s != [] && !IsWhitespace(s[0]) && !IsWhitespace(s[|s| - 1])
    ensures forall k :: 0 <= k < |SplitWhitespace(s)| ==> SplitWhitespace(s)[k] != []
    decreases |s|
  {
    var i := FindWhitespace(s);
    if i < |s| {
      FirstWordSplit(s);
      var rest := TrimStart(s[i..]);
      SplitWhitespaceWords(rest);
      ConsWords(s[..i], SplitWhitespace(rest));
    }
  }

  function DigitChar(d: nat): (c: char)
    requires d < 10
    ensures IsDigit(c)
  {
    ('0' as int + d) as char
  }

  function DigitValue(c: char): nat
    requires IsDigit(c)
  {
    c as int - '0' as int
  }

  /** The decimal rendering of n that a template literal produces. */
  function NatToString(n: nat): (s: string)
    ensures |s| >= 1
    ensures forall i :: 0 <= i < |s| ==> IsDigit(s[i])
    ensures s[0] == '0' ==> n == 0 && s == "0"
    decreases n
  {
    if n < 10 then [DigitChar(n)] else NatToString(n / 10) + [DigitChar(n % 10)]
  }

  /** The number a string of decimal digits denotes. */
  function DigitsValue(s: string): nat
    requires forall i :: 0 <= i < |s| ==> IsDigit(s[i])
    decreases |s|
  {
    if s == [] then 0 else DigitsValue(s[..|s| - 1]) * 10 + DigitValue(s[|s| - 1])
  }

  /** Reading back the rendering gives the number. */
  lemma {:induction false} NatToStringRoundTrip(n: nat)
    ensures DigitsValue(NatToString(n)) == n
    decreases n
  {
    if n >= 10 {
      var s := NatToString(n);
      assert s[..|s| - 1] == NatToString(n / 10);
      NatToStringRoundTrip(n / 10);
    }
  }
}
