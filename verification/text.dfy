/**
 * The string operations of Python's `str` that the modelled code relies on:
 * `in`, `startswith`/`endswith`, `split`/`join`, `partition`, `strip`,
 * `upper`/`lower`, `int(text)` and `str(int)`.
 */
module Text {
  import opened Outcomes

  /** `c.isspace()` in Python: the ASCII and Unicode white-space characters. */
  predicate IsSpace(c: char) {
    var n := c as int;
    || n == 0x20 || 0x09 <= n <= 0x0D || 0x1C <= n <= 0x1F || n == 0x85 || n == 0xA0
    || n == 0x1680 || 0x2000 <= n <= 0x200A || n == 0x2028 || n == 0x2029
    || n == 0x202F || n == 0x205F || n == 0x3000
  }

  predicate IsAsciiDigit(c: char) {
    '0' <= c <= '9'
  }

  predicate IsAscii(c: char) {
    (c as int) < 0x80
  }

  function DigitValue(c: char): nat
    requires IsAsciiDigit(c)
  {
    (c as int) - ('0' as int)
  }

  function DigitChar(d: nat): (c: char)
    requires d < 10
    ensures IsAsciiDigit(c) && DigitValue(c) == d
  {
    (('0' as int) + d) as char
  }

  /** `c.upper()` restricted to ASCII letters; every other character is kept. */
  function UpperChar(c: char): char {
    if 'a' <= c <= 'z' then ((c as int) - 32) as char else c
  }

  /** `c.lower()` restricted to ASCII letters; every other character is kept. */
  function LowerChar(c: char): char {
    if 'A' <= c <= 'Z' then ((c as int) + 32) as char else c
  }

  function Upper(s: string): (r: string)
    ensures |r| == |s|
    ensures forall i :: 0 <= i < |s| ==> r[i] == UpperChar(s[i])
  {
    seq(|s|, i requires 0 <= i < |s| => UpperChar(s[i]))
  }

  function Lower(s: string): (r: string)
    ensures |r| == |s|
    ensures forall i :: 0 <= i < |s| ==> r[i] == LowerChar(s[i])
  {
    seq(|s|, i requires 0 <= i < |s| => LowerChar(s[i]))
  }

  /** Upper-casing twice is upper-casing once: the basis of case-insensitive lookups. */
  lemma UpperIdempotent(s: string)
    ensures Upper(Upper(s)) == Upper(s)
  {
    assert forall i :: 0 <= i < |s| ==> UpperChar(UpperChar(s[i])) == UpperChar(s[i]);
  }

  lemma LowerIdempotent(s: string)
    ensures Lower(Lower(s)) == Lower(s)
  {
    assert forall i :: 0 <= i < |s| ==> LowerChar(LowerChar(s[i])) == LowerChar(s[i]);
  }

  /** Lower-casing a text already in upper case loses nothing: upper-casing restores it. */
  lemma UpperOfLower(s: string)
    requires Upper(s) == s
    ensures Upper(Lower(s)) == s
  {
    forall i | 0 <= i < |s| ensures UpperChar(LowerChar(s[i])) == s[i] {
      assert UpperChar(s[i]) == s[i];
    }
  }

  predicate StartsWith(s: string, prefix: string) {
    |prefix| <= |s| && s[..|prefix|] == prefix
  }

  predicate EndsWith(s: string, suffix: string) {
    |suffix| <= |s| && s[|s| - |suffix|..] == suffix
  }

  predicate OccursAt(s: string, sub: string, i: nat) {
    i + |sub| <= |s| && s[i..i + |sub|] == sub
  }

  function IndexFrom(s: string, sub: string, i: nat): (r: Option<nat>)
    ensures r.Some? ==> i <= r.value && OccursAt(s, sub, r.value)
    ensures r.Some? ==> forall j :: i <= j < r.value ==> !OccursAt(s, sub, j)
    ensures r.None? ==> forall j :: i <= j ==> !OccursAt(s, sub, j)
    decreases |s| - i
  {
    if i + |sub| > |s| then None
    else if s[i..i + |sub|] == sub then Some(i)
    else IndexFrom(s, sub, i + 1)
  }

  /** `s.find(sub)`: the first position at which `sub` occurs, if any. */
  function IndexOf(s: string, sub: string): (r: Option<nat>)
    ensures r.Some? ==> OccursAt(s, sub, r.value) && forall j :: 0 <= j < r.value ==> !OccursAt(s, sub, j)
    ensures r.None? <==> forall j :: !OccursAt(s, sub, j)
  {
    IndexFrom(s, sub, 0)
  }

  /** `sub in s`. */
  predicate Contains(s: string, sub: string) {
    IndexOf(s, sub).Some?
  }

  /** `s.split(sep)` for a non-empty separator (Python raises ValueError on an empty one). */
  function Split(s: string, sep: string): (parts: seq<string>)
    requires |sep| > 0
    ensures |parts| >= 1
    decreases |s|
  {
    match IndexOf(s, sep)
    case None => [s]
    case Some(i) => [s[..i]] + Split(s[i + |sep|..], sep)
  }

  /** `sep.join(parts)`. */
  function Join(parts: seq<string>, sep: string): string
    decreases |parts|
  {
    if |parts| == 0 then ""
    else if |parts| == 1 then parts[0]
    else parts[0] + sep + Join(parts[1..], sep)
  }

  lemma JoinCons(head: string, tail: seq<string>, sep: string)
    requires |tail| > 0
    ensures Join([head] + tail, sep) == head + sep + Join(tail, sep)
  {
    assert ([head] + tail)[1..] == tail;
  }

  lemma SplitAt(s: string, sep: string, i: nat)
    requires |sep| > 0 && IndexOf(s, sep) == Some(i)
    ensures Split(s, sep) == [s[..i]] + Split(s[i + |sep|..], sep)
    ensures s == s[..i] + sep + s[i + |sep|..]
  {
    Around(s, sep, i);
  }

  /** A text is what comes before an occurrence, the occurrence, and what comes after. */
  lemma Around(s: string, sep: string, i: nat)
    requires OccursAt(s, sep, i)
    ensures s == s[..i] + sep + s[i + |sep|..]
  {
    assert s == s[..i] + s[i..i + |sep|] + s[i + |sep|..];
  }

  /** Joining two non-empty runs of pieces puts one separator between them. */
  lemma {:induction false} JoinAppend(a: seq<string>, b: seq<string>, sep: string)
    requires |a| > 0 && |b| > 0
    ensures Join(a + b, sep) == Join(a, sep) + sep + Join(b, sep)
    decreases |a|
  {
    if |a| == 1 {
      assert a + b == [a[0]] + b;
      JoinCons(a[0], b, sep);
    } else {
      JoinAppend(a[1..], b, sep);
      assert a + b == [a[0]] + (a[1..] + b);
      JoinCons(a[0], a[1..] + b, sep);
      JoinCons(a[0], a[1..], sep);
      assert [a[0]] + a[1..] == a;
    }
  }

  /** Joining the pieces of a split with the same separator gives back the text. */
  lemma {:induction false} JoinSplit(s: string, sep: string)
    requires |sep| > 0
    ensures Join(Split(s, sep), sep) == s
    decreases |s|
  {
    var found := IndexOf(s, sep);
    if found.Some? {
      var i := found.value;
      var rest := s[i + |sep|..];
      SplitAt(s, sep, i);
      JoinSplit(rest, sep);
      JoinCons(s[..i], Split(rest, sep), sep);
    }
  }

  /** No piece of a split contains the separator. */
  lemma {:induction false} SplitPiecesAreFree(s: string, sep: string)
    requires |sep| > 0
    ensures forall p :: p in Split(s, sep) ==> !Contains(p, sep)
    decreases |s|
  {
    match IndexOf(s, sep)
    case None =>
    case Some(i) =>
      var rest := s[i + |sep|..];
      SplitPiecesAreFree(rest, sep);
      assert Split(s, sep) == [s[..i]] + Split(rest, sep);
      assert !Contains(s[..i], sep) by {
        forall j: nat ensures !OccursAt(s[..i], sep, j) {
          if OccursAt(s[..i], sep, j) {
            assert s[j..j + |sep|] == s[..i][j..j + |sep|];
            assert OccursAt(s, sep, j);
          }
        }
      }
  }

  /** `s.partition(sep)[2]`: the text after the first separator, or "" when there is none. */
  function After(s: string, sep: string): (r: string)
    ensures IndexOf(s, sep).None? ==> r == ""
    ensures IndexOf(s, sep).Some? ==> s == s[..IndexOf(s, sep).value] + sep + r
  {
    match IndexOf(s, sep)
    case None => ""
    case Some(i) =>
      assert s == s[..i] + s[i..i + |sep|] + s[i + |sep|..];
      s[i + |sep|..]
  }

  function StripLeft(s: string): (r: string)
    ensures |r| <= |s| && r == s[|s| - |r|..]
    ensures |r| > 0 ==> !IsSpace(r[0])
  {
    if |s| > 0 && IsSpace(s[0]) then StripLeft(s[1..]) else s
  }

  function StripRight(s: string): (r: string)
    ensures |r| <= |s| && r == s[..|r|]
    ensures |r| > 0 ==> !IsSpace(r[|r| - 1])
  {
    if |s| > 0 && IsSpace(s[|s| - 1]) then StripRight(s[..|s| - 1]) else s
  }

  /** `s.strip()`. */
  function Strip(s: string): string {
    StripRight(StripLeft(s))
  }

  lemma StripUnchanged(s: string)
    requires |s| > 0 && !IsSpace(s[0]) && !IsSpace(s[|s| - 1])
    ensures Strip(s) == s
  {
  }

  /** The value of a string of ASCII digits, read most significant digit first. */
  function DigitsValue(ds: string): nat
    requires forall i :: 0 <= i < |ds| ==> IsAsciiDigit(ds[i])
  {
    if |ds| == 0 then 0 else DigitsValue(ds[..|ds| - 1]) * 10 + DigitValue(ds[|ds| - 1])
  }

  /** `str(n)` for a natural number. */
  function NatDigits(n: nat): (ds: string)
    ensures |ds| > 0
    ensures forall i :: 0 <= i < |ds| ==> IsAsciiDigit(ds[i])
  {
    if n < 10 then [DigitChar(n)] else NatDigits(n / 10) + [DigitChar(n % 10)]
  }

  /** `str(n)` for an integer. */
  function Decimal(n: int): string {
    if n < 0 then "-" + NatDigits(-n) else NatDigits(n)
  }

  /** Python's `int(text)` accepts digit groups separated by single underscores. */
  predicate DigitGroups(b: string) {
    && |b| > 0
    && IsAsciiDigit(b[0])
    && IsAsciiDigit(b[|b| - 1])
    && (forall i :: 0 <= i < |b| ==> IsAsciiDigit(b[i]) || b[i] == '_')
    && (forall i :: 0 <= i < |b| - 1 ==> !(b[i] == '_' && b[i + 1] == '_'))
  }

  function RemoveUnderscores(b: string): (r: string)
    ensures (forall i :: 0 <= i < |b| ==> IsAsciiDigit(b[i]) || b[i] == '_') ==>
              forall i :: 0 <= i < |r| ==> IsAsciiDigit(r[i])
    ensures (forall i :: 0 <= i < |b| ==> IsAsciiDigit(b[i])) ==> r == b
  {
    if |b| == 0 then ""
    else if b[0] == '_' then RemoveUnderscores(b[1..])
    else [b[0]] + RemoveUnderscores(b[1..])
  }

  datatype IntParse = Parsed(n: int) | Malformed | NonAsciiText

  /**
   * `int(text)` in base 10: surrounding white space is ignored, an optional
   * sign is followed by digit groups.  Python also accepts non-ASCII decimal
   * digits; text holding any non-ASCII character is reported as such.
   */
  function ParseInt(s: string): IntParse {
    var t := Strip(s);
    if !AllAscii(t) then NonAsciiText else ParseSignedDigits(t)
  }

  predicate AllAscii(t: string) {
    forall i :: 0 <= i < |t| ==> IsAscii(t[i])
  }

  /** An optional sign followed by digit groups. */
  function ParseSignedDigits(t: string): IntParse {
    var negative := |t| > 0 && t[0] == '-';
    var body := if |t| > 0 && (t[0] == '-' || t[0] == '+') then t[1..] else t;
    if !DigitGroups(body) then Malformed
    else
      var magnitude: int := DigitsValue(RemoveUnderscores(body));
      Parsed(if negative then -magnitude else magnitude)
  }

  lemma {:induction false} DigitsValueOfNatDigits(n: nat)
    ensures DigitsValue(NatDigits(n)) == n
  {
    if n >= 10 {
      DigitsValueOfNatDigits(n / 10);
      var ds := NatDigits(n);
      assert ds[..|ds| - 1] == NatDigits(n / 10);
    }
  }

  /** Reading back the decimal rendering of an integer gives the integer: `int(str(n)) == n`. */
  lemma ParseDecimal(n: int)
    ensures ParseInt(Decimal(n)) == Parsed(n)
  {
    var m: nat := if n < 0 then -n else n;
    var ds := NatDigits(m);
    var t := Decimal(n);
    DigitsValueOfNatDigits(m);
    PlainText(t);
    if n < 0 {
      assert t[1..] == ds;
      ParseNegative(t, ds);
    } else {
      ParseUnsigned(ds);
    }
  }

  lemma ParseUnsigned(ds: string)
    requires |ds| > 0 && forall i :: 0 <= i < |ds| ==> IsAsciiDigit(ds[i])
    ensures ParseSignedDigits(ds) == Parsed(DigitsValue(ds))
  {
    assert RemoveUnderscores(ds) == ds;
    assert DigitGroups(ds);
  }

  lemma ParseNegative(t: string, ds: string)
    requires |ds| > 0 && forall i :: 0 <= i < |ds| ==> IsAsciiDigit(ds[i])
    requires |t| > 1 && t[0] == '-' && t[1..] == ds
    ensures ParseSignedDigits(t) == Parsed(-(DigitsValue(ds) as int))
  {
    assert RemoveUnderscores(ds) == ds;
    assert DigitGroups(ds);
  }

  /** The rendering of an integer is ASCII and has no surrounding white space. */
  lemma PlainText(t: string)
    requires |t| > 0 && IsAsciiDigit(t[|t| - 1]) && (t[0] == '-' || IsAsciiDigit(t[0]))
    requires forall i :: 0 <= i < |t| ==> t[i] == '-' || IsAsciiDigit(t[i])
    ensures Strip(t) == t && AllAscii(t)
  {
    StripUnchanged(t);
  }

}
