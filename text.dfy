/** The three pieces of Python string behaviour the handlers depend on:
    `str.strip()` (report reasons), `str.split(' ')` (the Authorization
    header) and `str(int)` inside an f-string (chat room names). */
module Text {

  /** Python's `str.isspace` for one character: the characters `str.strip()`
      with no argument removes from both ends. */
  predicate IsSpace(c: char) {
    var n := c as int;
    || (0x09 <= n <= 0x0D) || (0x1C <= n <= 0x20) || n == 0x85 || n == 0xA0
    || n == 0x1680 || (0x2000 <= n <= 0x200A) || n == 0x2028 || n == 0x2029
    || n == 0x202F || n == 0x205F || n == 0x3000
  }

  /** `s` with its leading whitespace removed (`str.lstrip()`). */
  function TrimStart(s: string): (r: string)
    ensures |r| <= |s| && r == s[|s| - |r|..]
    ensures forall i :: 0 <= i < |s| - |r| ==> IsSpace(s[i])
    ensures r != [] ==> !IsSpace(r[0])
  {
    if s != [] && IsSpace(s[0]) then TrimStart(s[1..]) else s
  }

  /** `s` with its trailing whitespace removed (`str.rstrip()`). */
  function TrimEnd(s: string): (r: string)
    ensures |r| <= |s| && r == s[..|r|]
    ensures forall i :: |r| <= i < |s| ==> IsSpace(s[i])
    ensures r != [] ==> !IsSpace(r[|r| - 1])
  {
    if s != [] && IsSpace(s[|s| - 1]) then TrimEnd(s[..|s| - 1]) else s
  }

  /** `str.strip()`: the part of `s` between its leading and its trailing
      whitespace. It is empty exactly when `s` is blank. */
  function Strip(s: string): (r: string)
    ensures |r| <= |s|
    ensures r == [] <==> forall i :: 0 <= i < |s| ==> IsSpace(s[i])
  {
    TrimEnd(TrimStart(s))
  }

  /** `r` is the piece of `s` that starts at `k`, and everything of `s`
      before it and after it is whitespace. */
  predicate CutAt(s: string, k: int, r: string) {
    && 0 <= k <= |s| - |r| && r == s[k..k + |r|]
    && (forall i :: 0 <= i < k ==> IsSpace(s[i]))
    && (forall i :: k + |r| <= i < |s| ==> IsSpace(s[i]))
  }

  /** Cutting whitespace from the front of `s` and then from the back of
      what is left keeps a piece of `s` that `CutAt` describes. */
  lemma CutOfTrims(s: string, t: string, r: string)
    requires |t| <= |s| && t == s[|s| - |t|..]
    requires forall i :: 0 <= i < |s| - |t| ==> IsSpace(s[i])
    requires |r| <= |t| && r == t[..|r|]
    requires forall i :: |r| <= i < |t| ==> IsSpace(t[i])
    ensures CutAt(s, |s| - |t|, r)
  {
    var k := |s| - |t|;
    assert r == s[k..k + |r|];
    forall i | k + |r| <= i < |s| ensures IsSpace(s[i]) {
      assert s[i] == t[i - k];
    }
  }

  /** What `Strip` keeps is the piece of its input left once whitespace is
      cut from the two ends, and it neither starts nor ends with whitespace. */
  lemma StripShape(s: string)
    ensures Strip(s) != [] ==> !IsSpace(Strip(s)[0]) && !IsSpace(Strip(s)[|Strip(s)| - 1])
    ensures exists k :: CutAt(s, k, Strip(s))
  {
    var t := TrimStart(s);
    CutOfTrims(s, t, TrimEnd(t));
  }

  /** `sep` does not occur in `s`. */
  predicate Free(s: string, sep: char) {
    forall i :: 0 <= i < |s| ==> s[i] != sep
  }

  /** `f` is the first `sep`-separated field of `s`: a prefix of `s` without
      `sep` that ends where `s` ends or where `sep` follows. */
  predicate LeadingField(s: string, sep: char, f: string) {
    f <= s && Free(f, sep) && (|f| == |s| || s[|f|] == sep)
  }

  /** `sep.join(parts)` in Python. */
  function Join(parts: seq<string>, sep: char): string {
    if |parts| == 0 then []
    else if |parts| == 1 then parts[0]
    else parts[0] + [sep] + Join(parts[1..], sep)
  }

  /** Prepending a character to the first part prepends it to the join. */
  lemma JoinConsFirst(c: char, parts: seq<string>, sep: char)
    requires |parts| >= 1
    ensures Join([[c] + parts[0]] + parts[1..], sep) == [c] + Join(parts, sep)
  {
    var q := [[c] + parts[0]] + parts[1..];
    if |parts| > 1 {
      assert q[1..] == parts[1..];
    }
  }

  /** `s.split(sep)` in Python for a one-character separator: the fields
      between the separators, empty ones included, so there is always at
      least one field. Joining the fields again gives back `s`. */
  function Split(s: string, sep: char): (r: seq<string>)
    ensures |r| >= 1
    ensures forall i :: 0 <= i < |r| ==> Free(r[i], sep)
    ensures Join(r, sep) == s
  {
    if s == [] then [[]]
    else if s[0] == sep then
      var t := Split(s[1..], sep);
      assert [[]] + t == [[]] + t[..1] + t[1..];
      assert s == [sep] + s[1..];
      [[]] + t
    else
      var t := Split(s[1..], sep);
      var r := [[s[0]] + t[0]] + t[1..];
      JoinConsFirst(s[0], t, sep);
      assert s == [s[0]] + s[1..];
      assert forall i :: 1 <= i < |r| ==> r[i] == t[i];
      r
  }

  /** The first field of a split is the text up to the first separator. */
  lemma {:induction false} SplitLeading(s: string, sep: char)
    ensures LeadingField(s, sep, Split(s, sep)[0])
  {
    if s != [] && s[0] != sep {
      SplitLeading(s[1..], sep);
      var t := Split(s[1..], sep);
      assert Split(s, sep)[0] == [s[0]] + t[0];
      assert s == [s[0]] + s[1..];
    }
  }

  /** Splitting undoes joining whenever no part holds the separator:
      together with Split's own contract, the two are inverses. */
  lemma {:induction false} SplitJoin(parts: seq<string>, sep: char)
    requires |parts| >= 1
    requires forall i :: 0 <= i < |parts| ==> Free(parts[i], sep)
    ensures Split(Join(parts, sep), sep) == parts
    decreases |parts|, |parts[0]|
  {
    if parts[0] == [] {
      if |parts| > 1 {
        var rest := parts[1..];
        assert Join(parts, sep) == [sep] + Join(rest, sep);
        assert Join(parts, sep)[1..] == Join(rest, sep);
        SplitJoin(rest, sep);
        assert parts == [[]] + rest;
      }
    } else {
      var c := parts[0][0];
      var q := [parts[0][1..]] + parts[1..];
      assert q[1..] == parts[1..];
      assert forall i :: 1 <= i < |q| ==> q[i] == parts[i];
      SplitJoin(q, sep);
      assert [c] + q[0] == parts[0];
      JoinConsFirst(c, q, sep);
      assert [[c] + q[0]] + q[1..] == parts;
      var j := Join(parts, sep);
      assert j == [c] + Join(q, sep);
      assert j[1..] == Join(q, sep);
    }
  }

  /** Text without the separator is a single field. */
  lemma SplitFree(s: string, sep: char)
    requires Free(s, sep)
    ensures Split(s, sep) == [s]
  {
    SplitJoin([s], sep);
  }

  /** A separator after a separator-free prefix ends the first field. */
  lemma {:induction false} SplitAfterSeparator(x: string, y: string, sep: char)
    requires Free(x, sep)
    ensures Split(x + [sep] + y, sep) == [x] + Split(y, sep)
  {
    var s := x + [sep] + y;
    if x == [] {
      assert s == [sep] + y;
      assert s[1..] == y;
    } else {
      assert s[1..] == x[1..] + [sep] + y;
      SplitAfterSeparator(x[1..], y, sep);
      assert [x[0]] + x[1..] == x;
    }
  }

  /** The decimal digit `d`. */
  function DigitChar(d: int): char
    requires 0 <= d < 10
  {
    (48 + d) as char
  }

  /** The decimal numeral of `n`, without leading zeros. */
  function NatToDec(n: nat): (r: string)
    ensures |r| >= 1
    ensures |r| == 1 <==> n < 10
    ensures forall i :: 0 <= i < |r| ==> '0' <= r[i] <= '9'
  {
    if n < 10 then [DigitChar(n)] else NatToDec(n / 10) + [DigitChar(n % 10)]
  }

  /** Different numbers have different numerals. */
  lemma {:induction false} NatToDecInjective(a: nat, b: nat)
    requires NatToDec(a) == NatToDec(b)
    ensures a == b
    decreases a
  {
    var s := NatToDec(a);
    if a >= 10 {
      assert b >= 10;
      assert DigitChar(a % 10) == s[|s| - 1] == DigitChar(b % 10);
      assert NatToDec(a / 10) == s[..|s| - 1] == NatToDec(b / 10);
      NatToDecInjective(a / 10, b / 10);
    }
  }

  /** The value of a decimal digit character. */
  function DigitValue(c: char): int {
    c as int - '0' as int
  }

  /** The number a string of decimal digits denotes, read left to right
      (Horner's rule): the value of all but the last digit, times ten, plus
      the last digit. This is what `int()` reads back from a numeral. */
  function DecValue(s: string): int
    decreases |s|
  {
    if s == [] then 0 else DecValue(s[..|s| - 1]) * 10 + DigitValue(s[|s| - 1])
  }

  /** The numeral of `n` denotes `n`. */
  lemma {:induction false} NatToDecValue(n: nat)
    ensures DecValue(NatToDec(n)) == n
    decreases n
  {
    var r := NatToDec(n);
    if n < 10 {
      assert r[..0] == [];
    } else {
      NatToDecValue(n / 10);
      assert r[..|r| - 1] == NatToDec(n / 10);
      assert DigitValue(r[|r| - 1]) == n % 10;
    }
  }

  /** The numeral has no leading zero: it starts with `0` only for zero,
      which is the numeral `0` alone. */
  lemma {:induction false} NatToDecNoLeadingZero(n: nat)
    ensures NatToDec(n)[0] == '0' <==> n == 0
    ensures n == 0 ==> NatToDec(n) == "0"
    decreases n
  {
    if n >= 10 {
      NatToDecNoLeadingZero(n / 10);
      assert NatToDec(n)[0] == NatToDec(n / 10)[0];
    }
  }

  /** `str(i)` for a Python int: an optional minus sign, then the numeral. */
  function IntToDec(i: int): (r: string)
    ensures |r| >= 1
    ensures forall k :: 0 <= k < |r| ==> r[k] == '-' || '0' <= r[k] <= '9'
  {
    if i < 0 then "-" + NatToDec(-i) else NatToDec(i)
  }

  /** Different integers print differently. */
  lemma IntToDecInjective(a: int, b: int)
    requires IntToDec(a) == IntToDec(b)
    ensures a == b
  {
    var s := IntToDec(a);
    if a < 0 {
      assert s[0] == '-';
      assert b < 0;
      assert NatToDec(-a) == s[1..] == NatToDec(-b);
      NatToDecInjective(-a, -b);
    } else {
      assert '0' <= s[0] <= '9';
      assert b >= 0;
      NatToDecInjective(a, b);
    }
  }

  /** The number a `str(int)` numeral denotes: a leading minus sign negates
      the digits after it. */
  function IntValue(s: string): int {
    if s != [] && s[0] == '-' then -DecValue(s[1..]) else DecValue(s)
  }

  /** `str(i)` starts with a minus sign exactly for a negative `i`, is
      followed by the numeral of `|i|`, and denotes `i`. */
  lemma IntToDecValue(i: int)
    ensures IntToDec(i)[0] == '-' <==> i < 0
    ensures i < 0 ==> IntToDec(i)[1..] == NatToDec(-i)
    ensures i >= 0 ==> IntToDec(i) == NatToDec(i)
    ensures IntValue(IntToDec(i)) == i
  {
    if i < 0 {
      NatToDecValue(-i);
      assert IntToDec(i)[1..] == NatToDec(-i);
    } else {
      NatToDecValue(i);
      assert '0' <= NatToDec(i)[0] <= '9';
    }
  }
}
