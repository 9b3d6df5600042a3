/** Normalisation of what the player types into a cell: every character
    outside '1'..'9' is dropped and only the first remaining one is kept. */
module Input {

  predicate IsEntryDigit(ch: char) {
    '1' <= ch <= '9'
  }

  function DigitValue(ch: char): (v: int)
    requires IsEntryDigit(ch)
    ensures 1 <= v <= 9
  {
    ch as int - '0' as int
  }

  /** The character a palette button for `n` sends. */
  function DigitChar(n: int): (ch: char)
    requires 1 <= n <= 9
    ensures IsEntryDigit(ch) && DigitValue(ch) == n
  {
    ('0' as int + n) as char
  }

  /** `s[i]` is the first character of `s` in '1'..'9'. */
  ghost predicate FirstDigitAt(s: string, i: int) {
    0 <= i < |s| && IsEntryDigit(s[i]) && forall j :: 0 <= j < i ==> !IsEntryDigit(s[j])
  }

  /** The input with every character outside '1'..'9' removed. */
  function KeepDigits(s: string): (f: string)
    ensures forall i :: 0 <= i < |f| ==> IsEntryDigit(f[i])
    ensures |f| <= |s|
    ensures forall ch :: ch in f <==> ch in s && IsEntryDigit(ch)
    ensures f == [] <==> forall i :: 0 <= i < |s| ==> !IsEntryDigit(s[i])
    ensures f != [] ==> exists i :: FirstDigitAt(s, i) && f[0] == s[i]
  {
    if s == [] then
      []
    else
      var rest := KeepDigits(s[1..]);
      if IsEntryDigit(s[0]) then
        assert FirstDigitAt(s, 0);
        [s[0]] + rest
      else
        assert rest != [] ==> exists i :: FirstDigitAt(s, i) && rest[0] == s[i] by {
          if rest != [] {
            var i :| FirstDigitAt(s[1..], i) && rest[0] == s[1..][i];
            assert FirstDigitAt(s, i + 1);
          }
        }
        rest
  }

  /** The value a raw cell input stands for: the first character in
      '1'..'9', or 0 (empty) when there is none. */
  function ParseCell(s: string): (v: int)
    ensures 0 <= v <= 9
    ensures v == 0 <==> forall i :: 0 <= i < |s| ==> !IsEntryDigit(s[i])
    ensures v != 0 ==> exists i :: FirstDigitAt(s, i) && v == DigitValue(s[i])
  {
    var f := KeepDigits(s);
    if f == [] then 0 else DigitValue(f[0])
  }

  /** A palette digit, sent as its one-character string, reads back as that
      digit; the empty input reads as an empty cell. */
  lemma PaletteDigitRoundTrip(n: int)
    requires 1 <= n <= 9
    ensures ParseCell([DigitChar(n)]) == n
    ensures ParseCell("") == 0
  {
  }
}
