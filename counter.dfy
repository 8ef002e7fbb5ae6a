/** The character counter under the message field: its text and its severity class,
    recomputed on every input event from the raw (untrimmed) length of the message. */
module Counter {
  import opened Wrappers
  import opened Text

  /** The message field's maxlength. */
  const MaxLength: nat := 1000

  /** The class the counter carries besides 'char-counter'. */
  datatype Band = Normal | Warning | Danger

  /** The input handler resets the class, adds 'warning' above 0.8 * max and, above
      0.95 * max, swaps 'warning' for 'danger'. With max = 1000 both products are exact
      in double precision (800 and 950), so they are compared as integers here. */
  function BandFor(len: nat): (b: Band)
    ensures b == Danger <==> len > 950
    ensures b == Warning <==> 800 < len <= 950
    ensures b == Normal <==> len <= 800
  {
    var b := if 5 * len > 4 * MaxLength then Warning else Normal;
    if 20 * len > 19 * MaxLength then Danger else b
  }

  /** MaxLength written in decimal. */
  const MaxLengthText := "1000"

  lemma MaxLengthTextIsDecimal()
    ensures NatToString(MaxLength) == MaxLengthText
  {
  }

  /** `${currentLength} / ${maxLength} characters` */
  function CounterText(len: nat): string {
    NatToString(len) + " / " + MaxLengthText + " characters"
  }

  /** The number a counter text starts with: its digits before the first space. */
  function ShownLength(text: string): Option<nat> {
    var i := Find(text, ' ');
    if forall j :: 0 <= j < i ==> IsDigit(text[j]) then Some(DigitsValue(text[..i])) else None
  }

  /** The counter text shows the length it was made from. */
  lemma ShownLengthOfCounterText(len: nat)
    ensures ShownLength(CounterText(len)) == Some(len)
  {
    var digits := NatToString(len);
    var text := CounterText(len);
    assert text[|digits|] == ' ';
    FindFirst(text, ' ', |digits|);
    assert text[..|digits|] == digits;
    NatToStringRoundTrip(len);
  }
}
