/**
 * The base 64 encoding of section 4 of RFC 4648 (alphabet of Table 1, `=`
 * padding), and Python's `base64.encodebytes`, which writes it as lines of
 * at most 76 characters each ending in a newline.
 */
module Base64 {
  import opened Outcomes
  import opened Utf8

  /** The character of a 6-bit value, Table 1 of RFC 4648. */
  function Symbol(i: int): (c: char)
    requires 0 <= i < 64
  {
    if i < 26 then ('A' as int + i) as char
    else if i < 52 then ('a' as int + i - 26) as char
    else if i < 62 then ('0' as int + i - 52) as char
    else if i == 62 then '+'
    else '/'
  }

  /** The 6-bit value of an alphabet character. */
  function SymbolValue(c: char): Option<nat> {
    if 'A' <= c <= 'Z' then Some(c as int - 'A' as int)
    else if 'a' <= c <= 'z' then Some(c as int - 'a' as int + 26)
    else if '0' <= c <= '9' then Some(c as int - '0' as int + 52)
    else if c == '+' then Some(62)
    else if c == '/' then Some(63)
    else None
  }

  lemma SymbolValueOf(i: int)
    requires 0 <= i < 64
    ensures SymbolValue(Symbol(i)) == Some(i)
  {
  }

  predicate InAlphabet(c: char) {
    SymbolValue(c).Some? || c == '='
  }

  /** Three bytes as four characters. */
  function Quad(b0: Byte, b1: Byte, b2: Byte): (r: string)
    ensures |r| == 4
  {
    [Symbol(b0 / 4), Symbol((b0 % 4) * 16 + b1 / 16), Symbol((b1 % 16) * 4 + b2 / 64), Symbol(b2 % 64)]
  }

  /** The encoding: each group of three bytes becomes four characters, a short last group is padded with `=`. */
  function Encode(b: seq<Byte>): (r: string)
    ensures |r| == 4 * ((|b| + 2) / 3)
    ensures forall i :: 0 <= i < |r| ==> InAlphabet(r[i])
    decreases |b|
  {
    if |b| == 0 then ""
    else if |b| == 1 then
      QuadAlphabet(b[0], 0, 0);
      Quad(b[0], 0, 0)[..2] + "=="
    else if |b| == 2 then
      QuadAlphabet(b[0], b[1], 0);
      Quad(b[0], b[1], 0)[..3] + "="
    else
      QuadAlphabet(b[0], b[1], b[2]);
      Quad(b[0], b[1], b[2]) + Encode(b[3..])
  }

  lemma QuadAlphabet(b0: Byte, b1: Byte, b2: Byte)
    ensures forall i :: 0 <= i < 4 ==> InAlphabet(Quad(b0, b1, b2)[i])
  {
    SymbolValueOf(b0 / 4);
    SymbolValueOf((b0 % 4) * 16 + b1 / 16);
    SymbolValueOf((b1 % 16) * 4 + b2 / 64);
    SymbolValueOf(b2 % 64);
  }

  /** The bytes of four characters; `None` when one is outside the alphabet or the padding is wrong. */
  function Unquad(q: string): (r: Option<seq<Byte>>)
    requires |q| == 4
  {
    var v0 := SymbolValue(q[0]);
    var v1 := SymbolValue(q[1]);
    var v2 := SymbolValue(q[2]);
    var v3 := SymbolValue(q[3]);
    if v0.None? || v1.None? then None
    else
      var a := v0.value;
      var b := v1.value;
      if q[2] == '=' && q[3] == '=' then
        if b % 16 == 0 then Some([a * 4 + b / 16]) else None
      else if v2.None? then None
      else
        var c := v2.value;
        if q[3] == '=' then
          if c % 4 == 0 then Some([a * 4 + b / 16, (b % 16) * 16 + c / 4]) else None
        else if v3.None? then None
        else Some([a * 4 + b / 16, (b % 16) * 16 + c / 4, (c % 4) * 64 + v3.value])
  }

  /**
   * The canonical decoding of `s`: `None` for text that is not whole groups
   * of alphabet characters with proper padding. Unlike Python's `b64decode`,
   * which ignores them, non-zero padding bits are rejected too.
   */
  function Decode(s: string): Option<seq<Byte>>
    decreases |s|
  {
    if |s| == 0 then Some([])
    else if |s| < 4 then None
    else if |s| == 4 then Unquad(s)
    else if '=' in s[..4] then None
    else
      match Unquad(s[..4])
      case None => None
      case Some(front) =>
        match Decode(s[4..])
        case None => None
        case Some(rest) => Some(front + rest)
  }

  /** The three bytes read back from the four 6-bit values `Quad` writes. */
  lemma Regroup(b0: Byte, b1: Byte, b2: Byte)
    ensures var x, y, z := b0 / 4, (b0 % 4) * 16 + b1 / 16, (b1 % 16) * 4 + b2 / 64;
            x * 4 + y / 16 == b0 && (y % 16) * 16 + z / 4 == b1 && (z % 4) * 64 + b2 % 64 == b2
  {
    var y := (b0 % 4) * 16 + b1 / 16;
    var z := (b1 % 16) * 4 + b2 / 64;
    assert y / 16 == b0 % 4 && y % 16 == b1 / 16;
    assert z / 4 == b1 % 16 && z % 4 == b2 / 64;
  }

  lemma UnquadFull(b0: Byte, b1: Byte, b2: Byte)
    ensures Unquad(Quad(b0, b1, b2)) == Some([b0, b1, b2])
    ensures '=' !in Quad(b0, b1, b2)
  {
    var x, y, z, w := b0 / 4, (b0 % 4) * 16 + b1 / 16, (b1 % 16) * 4 + b2 / 64, b2 % 64;
    SymbolValueOf(x);
    SymbolValueOf(y);
    SymbolValueOf(z);
    SymbolValueOf(w);
    Regroup(b0, b1, b2);
    var q := Quad(b0, b1, b2);
    assert q == [Symbol(x), Symbol(y), Symbol(z), Symbol(w)];
    assert Unquad(q) == Some([x * 4 + y / 16, (y % 16) * 16 + z / 4, (z % 4) * 64 + w]);
  }

  lemma UnquadOne(b0: Byte)
    ensures Unquad(Quad(b0, 0, 0)[..2] + "==") == Some([b0])
  {
    SymbolValueOf(b0 / 4);
    SymbolValueOf((b0 % 4) * 16);
  }

  lemma UnquadTwo(b0: Byte, b1: Byte)
    ensures Unquad(Quad(b0, b1, 0)[..3] + "=") == Some([b0, b1])
  {
    SymbolValueOf(b0 / 4);
    SymbolValueOf((b0 % 4) * 16 + b1 / 16);
    SymbolValueOf((b1 % 16) * 4);
  }

  /** A full group in front of more text decodes to its bytes followed by the rest's. */
  lemma DecodeCons(q: string, rest: string, x: seq<Byte>, y: seq<Byte>)
    requires |q| == 4 && '=' !in q && |rest| > 0
    requires Unquad(q) == Some(x) && Decode(rest) == Some(y)
    ensures Decode(q + rest) == Some(x + y)
  {
    var s := q + rest;
    assert s[..4] == q && s[4..] == rest;
  }

  /** Decoding an encoding gives back the bytes. */
  lemma {:induction false} DecodeEncode(b: seq<Byte>)
    ensures Decode(Encode(b)) == Some(b)
    decreases |b|
  {
    if 0 < |b| <= 3 {
      DecodeEncodeShort(b);
    } else if |b| > 3 {
      var q, rest := Quad(b[0], b[1], b[2]), Encode(b[3..]);
      EncodeStep(b);
      UnquadFull(b[0], b[1], b[2]);
      DecodeEncode(b[3..]);
      assert [b[0], b[1], b[2]] == b[..3];
      DecodeCons(q, rest, b[..3], b[3..]);
      assert b[..3] + b[3..] == b;
    }
  }

  /** A full group of three bytes in front of more. */
  lemma EncodeStep(b: seq<Byte>)
    requires |b| > 3
    ensures Encode(b) == Quad(b[0], b[1], b[2]) + Encode(b[3..]) && |Encode(b[3..])| > 0
  {
  }

  /** The last group, padded or not. */
  lemma DecodeEncodeShort(b: seq<Byte>)
    requires 0 < |b| <= 3
    ensures Decode(Encode(b)) == Some(b)
  {
    if |b| == 1 {
      DecodeEncodeOne(b);
    } else if |b| == 2 {
      DecodeEncodeTwo(b);
    } else {
      DecodeEncodeThree(b);
    }
  }

  lemma DecodeEncodeOne(b: seq<Byte>)
    requires |b| == 1
    ensures Decode(Encode(b)) == Some(b)
  {
    var s := Quad(b[0], 0, 0)[..2] + "==";
    assert Encode(b) == s;
    UnquadOne(b[0]);
    assert Decode(s) == Unquad(s);
    assert [b[0]] == b;
  }

  lemma DecodeEncodeTwo(b: seq<Byte>)
    requires |b| == 2
    ensures Decode(Encode(b)) == Some(b)
  {
    var s := Quad(b[0], b[1], 0)[..3] + "=";
    assert Encode(b) == s;
    UnquadTwo(b[0], b[1]);
    assert Decode(s) == Unquad(s);
    assert [b[0], b[1]] == b;
  }

  lemma DecodeEncodeThree(b: seq<Byte>)
    requires |b| == 3
    ensures Decode(Encode(b)) == Some(b)
  {
    var s := Quad(b[0], b[1], b[2]);
    assert Encode(b[3..]) == "";
    assert Encode(b) == s + "";
    assert s + "" == s;
    UnquadFull(b[0], b[1], b[2]);
    assert Decode(s) == Unquad(s);
    assert [b[0], b[1], b[2]] == b;
  }

  /** Whole groups encode separately: the encoding of `a + b` when `a` is a multiple of three bytes long. */
  lemma {:induction false} EncodeAppend(a: seq<Byte>, b: seq<Byte>)
    requires |a| % 3 == 0
    ensures Encode(a + b) == Encode(a) + Encode(b)
    decreases |a|
  {
    if |a| > 0 {
      EncodeAppend(a[3..], b);
      assert (a + b)[3..] == a[3..] + b;
      assert (a + b)[0] == a[0] && (a + b)[1] == a[1] && (a + b)[2] == a[2];
      assert Encode(a + b) == Quad(a[0], a[1], a[2]) + Encode(a[3..] + b);
      assert Encode(a) == Quad(a[0], a[1], a[2]) + Encode(a[3..]);
    } else {
      assert a + b == b;
    }
  }

  /** Bytes per line of `base64.encodebytes` (76 characters). */
  const LineBytes := 57

  /** `base64.encodebytes(b).decode()`: the encoding of each 57-byte slice, each followed by a newline. */
  function EncodeLines(b: seq<Byte>): (r: string)
    decreases |b|
  {
    if |b| == 0 then ""
    else if |b| <= LineBytes then Encode(b) + "\n"
    else Encode(b[..LineBytes]) + "\n" + EncodeLines(b[LineBytes..])
  }

  /** `s.replace('\n', '')`. */
  function RemoveNewlines(s: string): (r: string)
    ensures '\n' !in r
    ensures forall c :: c in r <==> c in s && c != '\n'
  {
    if |s| == 0 then ""
    else if s[0] == '\n' then RemoveNewlines(s[1..])
    else [s[0]] + RemoveNewlines(s[1..])
  }

  lemma {:induction false} RemoveNewlinesAppend(s: string, t: string)
    ensures RemoveNewlines(s + t) == RemoveNewlines(s) + RemoveNewlines(t)
    decreases |s|
  {
    if |s| > 0 {
      assert (s + t)[0] == s[0] && (s + t)[1..] == s[1..] + t;
      RemoveNewlinesAppend(s[1..], t);
      if s[0] != '\n' {
        assert RemoveNewlines(s + t) == [s[0]] + RemoveNewlines(s[1..] + t);
      }
    } else {
      assert s + t == t;
    }
  }

  lemma {:induction false} RemoveNewlinesFree(s: string)
    requires '\n' !in s
    ensures RemoveNewlines(s) == s
    decreases |s|
  {
    if |s| > 0 {
      RemoveNewlinesFree(s[1..]);
    }
  }

  /** Dropping the line breaks of `encodebytes` leaves exactly the encoding. */
  lemma {:induction false} EncodeLinesJoined(b: seq<Byte>)
    ensures RemoveNewlines(EncodeLines(b)) == Encode(b)
    decreases |b|
  {
    if 0 < |b| <= LineBytes {
      var e := Encode(b);
      EncodeNoNewline(b);
      JoinLine(e, "");
      assert EncodeLines(b) == e + "\n" + "";
    } else if |b| > LineBytes {
      var front, back := b[..LineBytes], b[LineBytes..];
      var e := Encode(front);
      EncodeNoNewline(front);
      EncodeLinesJoined(back);
      JoinLine(e, EncodeLines(back));
      EncodeAppend(front, back);
      assert front + back == b;
    }
  }

  /** An encoding holds no line break. */
  lemma EncodeNoNewline(b: seq<Byte>)
    ensures '\n' !in Encode(b)
  {
    var e := Encode(b);
    forall i | 0 <= i < |e| ensures e[i] != '\n' {
      assert InAlphabet(e[i]);
    }
  }

  /** Dropping the line breaks of one line and what follows it. */
  lemma JoinLine(e: string, rest: string)
    requires '\n' !in e
    ensures RemoveNewlines(e + "\n" + rest) == e + RemoveNewlines(rest)
  {
    RemoveNewlinesAppend(e + "\n", rest);
    RemoveNewlinesAppend(e, "\n");
    RemoveNewlinesFree(e);
    assert RemoveNewlines("\n") == "";
  }
}
