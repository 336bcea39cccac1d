/** The JavaScript string primitives the source relies on, over `seq<char>`:
    `trim`, ASCII `toLowerCase`/`toUpperCase`, `startsWith`/`endsWith`,
    `split` on a one-character separator, and `String(n)` for integers. */
module JsStrings {

  /** The characters `String.prototype.trim` removes: the WhiteSpace and
      LineTerminator code points of the ECMAScript grammar (section 12.2 and
      12.3 of ECMA-262). */
  predicate IsWhiteSpace(c: char) {
    var u := c as int;
    || (0x09 <= u <= 0x0D) || u == 0x20 || u == 0xA0 || u == 0x1680
    || (0x2000 <= u <= 0x200A) || u == 0x2028 || u == 0x2029
    || u == 0x202F || u == 0x205F || u == 0x3000 || u == 0xFEFF
  }

  /** Neither end of `s` is white space. */
  predicate IsTrimmed(s: string) {
    |s| == 0 || (!IsWhiteSpace(s[0]) && !IsWhiteSpace(s[|s| - 1]))
  }

  predicate AllWhiteSpace(s: string) {
    forall k :: 0 <= k < |s| ==> IsWhiteSpace(s[k])
  }

  /** Drops leading white space: the result is a suffix of `s`, everything cut
      off was white space, and what is left does not start with white space. */
  function TrimStart(s: string): (r: string)
    ensures |r| <= |s| && r == s[|s| - |r|..]
    ensures AllWhiteSpace(s[..|s| - |r|])
    ensures |r| == 0 || !IsWhiteSpace(r[0])
    decreases |s|
  {
    if |s| > 0 && IsWhiteSpace(s[0]) then TrimStart(s[1..]) else s
  }

  /** Drops trailing white space: the result is a prefix of `s`, everything cut
      off was white space, and what is left does not end with white space. */
  function TrimEnd(s: string): (r: string)
    ensures |r| <= |s| && r == s[..|r|]
    ensures AllWhiteSpace(s[|r|..])
    ensures |r| == 0 || !IsWhiteSpace(r[|r| - 1])
    decreases |s|
  {
    if |s| > 0 && IsWhiteSpace(s[|s| - 1]) then TrimEnd(s[..|s| - 1]) else s
  }

  /** `String.prototype.trim`. */
  function Trim(s: string): string {
    TrimEnd(TrimStart(s))
  }

  /** The result of `trim` has no white space at either end, is no longer
      than its input, leaves an already trimmed string alone, and is empty
      exactly for an all-white-space input. */
  lemma TrimSpec(s: string)
    ensures IsTrimmed(Trim(s))
    ensures |Trim(s)| <= |s|
    ensures IsTrimmed(s) ==> Trim(s) == s
    ensures Trim(s) == [] <==> AllWhiteSpace(s)
  {
    var t := TrimStart(s);
    var r := TrimEnd(t);
    assert |r| > 0 ==> r[0] == t[0];
    assert IsTrimmed(s) && |s| > 0 ==> t == s;
    assert r == [] ==> AllWhiteSpace(s) by {
      assert forall k :: 0 <= k < |s| - |t| ==> s[k] == s[..|s| - |t|][k];
    }
  }

  lemma TrimIdempotent(s: string)
    ensures Trim(Trim(s)) == Trim(s)
  {
    TrimSpec(s);
    TrimSpec(Trim(s));
  }

  /** ASCII case folding, the `toLowerCase` the model assumes. */
  function FoldChar(c: char): (d: char)
    ensures !('A' <= d <= 'Z')
    ensures 'A' <= c <= 'Z' || d == c
  {
    if 'A' <= c <= 'Z' then (c as int + 32) as char else c
  }

  /** ASCII `toUpperCase` of one character. */
  function UpperChar(c: char): (d: char)
    ensures !('a' <= d <= 'z')
    ensures 'a' <= c <= 'z' || d == c
  {
    if 'a' <= c <= 'z' then (c as int - 32) as char else c
  }

  /** `s.toLowerCase()` under ASCII folding. */
  function Fold(s: string): (r: string)
    ensures |r| == |s|
  {
    if s == [] then [] else [FoldChar(s[0])] + Fold(s[1..])
  }

  /** Each character is folded on its own. */
  lemma {:induction false} FoldAt(s: string, i: nat)
    requires i < |s|
    ensures Fold(s)[i] == FoldChar(s[i])
  {
    if i > 0 {
      FoldAt(s[1..], i - 1);
    }
  }

  /** Folding an already folded string changes nothing. */
  lemma {:induction false} FoldIdempotent(s: string)
    ensures Fold(Fold(s)) == Fold(s)
  {
    if s != [] {
      FoldIdempotent(s[1..]);
      assert Fold(s)[1..] == Fold(s[1..]);
    }
  }

  predicate StartsWith(s: string, prefix: string) {
    |prefix| <= |s| && s[..|prefix|] == prefix
  }

  predicate EndsWith(s: string, suffix: string) {
    |suffix| <= |s| && s[|s| - |suffix|..] == suffix
  }

  /** Trimming keeps a prefix that starts and ends with a character other
      than white space. */
  lemma TrimKeepsPrefix(s: string, p: string)
    requires StartsWith(s, p) && |p| > 0
    requires !IsWhiteSpace(p[0]) && !IsWhiteSpace(p[|p| - 1])
    ensures StartsWith(Trim(s), p)
  {
    var t := TrimStart(s);
    assert t == s;
    var r := TrimEnd(t);
    assert |r| >= |p|;
    assert r[..|p|] == s[..|p|];
  }

  /** Index of the first occurrence of `c` in `s`. */
  function IndexOf(s: string, c: char): (i: nat)
    requires c in s
    ensures i < |s| && s[i] == c && c !in s[..i]
  {
    if s[0] == c then 0 else 1 + IndexOf(s[1..], c)
  }

  /** `s.split(sep)` for a one-character separator: the pieces between the
      separators, from left to right; an input without `sep` is one piece. */
  function Split(s: string, sep: char): (r: seq<string>)
    ensures |r| >= 1
    ensures forall i :: 0 <= i < |r| ==> sep !in r[i]
    ensures |r| == 1 <==> sep !in s
    decreases |s|
  {
    if sep !in s then [s]
    else
      var i := IndexOf(s, sep);
      [s[..i]] + Split(s[i + 1..], sep)
  }

  /** `parts.join(sep)`. */
  function Join(parts: seq<string>, sep: string): string
  {
    if |parts| == 0 then ""
    else if |parts| == 1 then parts[0]
    else parts[0] + sep + Join(parts[1..], sep)
  }

  /** Joining keeps every character of every part: character `j` of part
      `k` sits at some position `i` of the joined string. */
  lemma {:induction false} JoinKeepsChars(parts: seq<string>, sep: string, k: nat, j: nat) returns (i: nat)
    requires k < |parts| && j < |parts[k]|
    ensures i < |Join(parts, sep)| && Join(parts, sep)[i] == parts[k][j]
  {
    if |parts| == 1 || k == 0 {
      i := j;
    } else {
      var i' := JoinKeepsChars(parts[1..], sep, k - 1, j);
      i := |parts[0]| + |sep| + i';
    }
  }

  /** Splitting and joining back gives the input. */
  lemma {:induction false} JoinSplit(s: string, sep: char)
    ensures Join(Split(s, sep), [sep]) == s
    decreases |s|
  {
    if sep in s {
      var i := IndexOf(s, sep);
      var rest := Split(s[i + 1..], sep);
      JoinSplit(s[i + 1..], sep);
      assert Split(s, sep) == [s[..i]] + rest;
      JoinCons(s[..i], rest, [sep]);
      CutAround(s, i);
    }
  }

  /** Joining a leading part with at least one more. */
  lemma JoinCons(first: string, rest: seq<string>, sep: string)
    requires |rest| > 0
    ensures Join([first] + rest, sep) == first + sep + Join(rest, sep)
  {
    assert ([first] + rest)[1..] == rest;
  }

  /** A string is the part before position `i`, the character there, and
      the part after it. */
  lemma CutAround(s: string, i: nat)
    requires i < |s|
    ensures s == s[..i] + [s[i]] + s[i + 1..]
  {
    assert s == s[..i] + s[i..];
  }

  /** Joining pieces free of the separator and splitting again gives them back. */
  lemma {:induction false} SplitJoin(parts: seq<string>, sep: char)
    requires |parts| >= 1
    requires forall i :: 0 <= i < |parts| ==> sep !in parts[i]
    ensures Split(Join(parts, [sep]), sep) == parts
    decreases |parts|
  {
    if |parts| > 1 {
      var s := Join(parts, [sep]);
      SplitJoin(parts[1..], sep);
      assert s == parts[0] + [sep] + Join(parts[1..], [sep]);
      assert s[|parts[0]|] == sep;
      assert s[..|parts[0]|] == parts[0];
      assert IndexOf(s, sep) == |parts[0]|;
      assert s[|parts[0]| + 1..] == Join(parts[1..], [sep]);
    }
  }

  function DigitChar(d: nat): (c: char)
    requires d < 10
    ensures '0' <= c <= '9'
  {
    "0123456789"[d]
  }

  function DigitValue(c: char): nat
    requires '0' <= c <= '9'
  {
    c as int - '0' as int
  }

  predicate IsDigits(s: string) {
    forall k :: 0 <= k < |s| ==> '0' <= s[k] <= '9'
  }

  /** `String(n)` for a non-negative integer: shortest decimal numeral. */
  function NatToString(n: nat): (r: string)
    ensures |r| >= 1 && IsDigits(r)
    ensures (|r| == 1) <==> (n < 10)
    ensures r[0] != '0' || n == 0
  {
    if n < 10 then [DigitChar(n)] else NatToString(n / 10) + [DigitChar(n % 10)]
  }

  /** Value of a decimal numeral, the partner of `NatToString`. */
  function ParseDigits(s: string): nat
    requires IsDigits(s)
  {
    if |s| == 0 then 0 else 10 * ParseDigits(s[..|s| - 1]) + DigitValue(s[|s| - 1])
  }

  /** Printing a number and reading it back gives the number. */
  lemma {:induction false} ParsePrinted(n: nat)
    ensures ParseDigits(NatToString(n)) == n
  {
    var r := NatToString(n);
    if n < 10 {
      assert r[..0] == [];
      assert "0123456789"[n] as int - '0' as int == n;
    } else {
      ParsePrinted(n / 10);
      assert r[..|r| - 1] == NatToString(n / 10);
      assert "0123456789"[n % 10] as int - '0' as int == n % 10;
    }
  }

  /** `String(i)` for any integer. */
  function IntToString(i: int): (r: string)
    ensures |r| >= 1
    ensures i >= 0 ==> IsDigits(r)
    ensures i < 0 <==> r[0] == '-'
  {
    if i < 0 then "-" + NatToString(-i) else NatToString(i)
  }
}
