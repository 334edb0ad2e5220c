/** Output file names: the track's 1-based ordinal, zero-padded to two
    digits (`f'{track + 1:0>2}'`), followed by the extension. */
module TrackNames {

  function DigitChar(d: nat): (c: char)
    requires d < 10
    ensures '0' <= c <= '9'
  {
    ('0' as int + d) as char
  }

  /** The number a string of decimal digits spells, most significant
      digit first; the empty string spells 0. */
  function DigitsValue(s: string): int {
    if s == [] then 0 else DigitsValue(s[..|s| - 1]) * 10 + (s[|s| - 1] as int - '0' as int)
  }

  /** Decimal digits of n, most significant first, without leading zeros. */
  function Decimal(n: nat): (s: string)
    ensures |s| >= 1
    ensures forall i :: 0 <= i < |s| ==> '0' <= s[i] <= '9'
    ensures DigitsValue(s) == n
  {
    if n < 10 then [DigitChar(n)]
    else
      var high := Decimal(n / 10);
      assert (high + [DigitChar(n % 10)])[..|high|] == high;
      high + [DigitChar(n % 10)]
  }

  /** A leading '0' does not change the number a string spells. */
  lemma {:induction false} LeadingZero(s: string)
    ensures DigitsValue("0" + s) == DigitsValue(s)
    decreases |s|
  {
    if s != [] {
      var t := "0" + s;
      assert t[..|t| - 1] == "0" + s[..|s| - 1];
      LeadingZero(s[..|s| - 1]);
    }
  }

  /** `format(n, '0>2')`: the decimal digits of n, padded on the left
      with '0' to a width of at least two. */
  function Ordinal(n: nat): (s: string)
    ensures |s| == if |Decimal(n)| < 2 then 2 else |Decimal(n)|
    ensures s[|s| - |Decimal(n)|..] == Decimal(n)
    ensures forall i :: 0 <= i < |s| - |Decimal(n)| ==> s[i] == '0'
  {
    if n < 10 then "0" + Decimal(n) else Decimal(n)
  }

  /** The padding does not change the number: an ordinal spells n. */
  lemma OrdinalValue(n: nat)
    ensures DigitsValue(Ordinal(n)) == n
  {
    if n < 10 {
      LeadingZero(Decimal(n));
    }
  }

  /** Name of the output for track index `track` (0-based): the ordinal
      of `track + 1`, then the extension. */
  function TrackName(track: nat, extension: string): (name: string)
    ensures |name| >= 2 + |extension| && name[|name| - |extension|..] == extension
  {
    Ordinal(track + 1) + extension
  }

  /** What a track name says: in front of the extension stands the
      zero-padded ordinal, and it spells the 1-based track number. */
  lemma TrackNameSpells(track: nat, extension: string)
    ensures var name := TrackName(track, extension);
            && name[..|name| - |extension|] == Ordinal(track + 1)
            && DigitsValue(name[..|name| - |extension|]) == track + 1
  {
    var name := TrackName(track, extension);
    assert name[..|name| - |extension|] == Ordinal(track + 1);
    OrdinalValue(track + 1);
  }

  lemma {:induction false} DecimalShape(n: nat)
    ensures |Decimal(n)| == 1 <==> n < 10
    ensures n >= 1 ==> Decimal(n)[0] != '0'
  {
    if n >= 10 {
      DecimalShape(n / 10);
    }
  }

  /** Different numbers have different decimal representations: each
      spells its own number. */
  lemma DecimalInjective(a: nat, b: nat)
    requires Decimal(a) == Decimal(b)
    ensures a == b
  {
  }

  /** Padding keeps ordinals apart: the leading '0' does not change
      the number spelled, so 1 gives "01", which no other number gives. */
  lemma OrdinalInjective(a: nat, b: nat)
    requires Ordinal(a) == Ordinal(b)
    ensures a == b
  {
    OrdinalValue(a);
    OrdinalValue(b);
  }

  /** Every track gets its own output name, so one existing file can
      only ever cause one track to be skipped. */
  lemma TrackNamesDistinct(i: nat, j: nat, extension: string)
    requires i != j
    ensures TrackName(i, extension) != TrackName(j, extension)
  {
    TrackNameSpells(i, extension);
    TrackNameSpells(j, extension);
  }

  /** Track 1 of a FLAC rip. */
  lemma FirstNameExample()
    ensures TrackName(0, ".flac") == "01.flac"
  {
    assert Decimal(1) == "1";
  }

  /** The first two tracks of a WAV rip. */
  lemma TwoTrackNames()
    ensures TrackName(0, ".wav") == "01.wav" && TrackName(1, ".wav") == "02.wav"
  {
    assert Decimal(1) == "1" && Decimal(2) == "2";
  }

  /** Two digits need no padding. */
  lemma TwoDigitNameExample()
    ensures TrackName(11, ".wav") == "12.wav"
  {
    assert Decimal(12) == Decimal(1) + "2";
  }

  /** The width is a minimum: track 100 gets three digits. */
  lemma ThreeDigitNameExample()
    ensures TrackName(99, ".wav") == "100.wav"
  {
    assert Decimal(10) == Decimal(1) + "0";
    assert Decimal(100) == Decimal(10) + "0";
  }
}
