/** Two string helpers of src/helpers/utils.ts: two-digit padding for clock
    fields and upper-casing the first character. */
module Utils {
  import opened JsStrings

  /** `prettyNum(num)`: a `0` in front of every number below ten. */
  function PrettyNum(num: int): (r: string)
    ensures 0 <= num < 10 ==> |r| == 2 && r[0] == '0' && r[1] == DigitChar(num)
    ensures num >= 10 ==> r == NatToString(num)
  {
    if num < 10 then "0" + IntToString(num) else IntToString(num)
  }

  /** Every non-negative number prints with at least two digits and reads
      back as itself. */
  lemma PrettyNumRoundTrip(num: nat)
    ensures |PrettyNum(num)| >= 2 && IsDigits(PrettyNum(num))
    ensures ParseDigits(PrettyNum(num)) == num
  {
    var r := PrettyNum(num);
    ParsePrinted(num);
    if num < 10 {
      assert r[..1] == "0";
      assert r[..1][..0] == [];
    }
  }

  /** The padding test does not look at the sign: a negative number gets a
      `0` in front of its minus sign. */
  lemma PrettyNumNegative(num: int)
    requires num < 0
    ensures PrettyNum(num) == "0-" + NatToString(-num)
  {
  }

  /** `capitalize(str)`: `charAt(0).toUpperCase() + slice(1)`. */
  function Capitalize(s: string): (r: string)
    ensures |r| == |s|
    ensures |s| > 0 ==> r[1..] == s[1..] && r[0] == UpperChar(s[0])
  {
    if s == [] then "" else [UpperChar(s[0])] + s[1..]
  }

  /** Capitalising twice is capitalising once. */
  lemma CapitalizeIdempotent(s: string)
    ensures Capitalize(Capitalize(s)) == Capitalize(s)
  {
    if s != [] {
      assert UpperChar(UpperChar(s[0])) == UpperChar(s[0]);
    }
  }

  /** Capitalising keeps the case-insensitive identity of a string. */
  lemma CapitalizeKeepsFold(s: string)
    ensures Fold(Capitalize(s)) == Fold(s)
  {
    if s != [] {
      var r := Capitalize(s);
      assert FoldChar(r[0]) == FoldChar(s[0]);
      assert r == [r[0]] + s[1..];
      assert s == [s[0]] + s[1..];
    }
  }
}
