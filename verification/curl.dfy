/**
 * The string handling around `curl`: cookies from `Set-Cookie` values, the
 * response header table, the response charset, the request body and its
 * `Content-Type`, the HTTP Basic credentials of section 2 of RFC 7617, and
 * the assembly of the request headers.  Opening the connection is not here.
 */
module Curl {
  import opened Outcomes
  import opened Text
  import opened PyValue
  import Assoc
  import Utf8
  import Base64

  // ---------------------------------------------------------------- cookies

  datatype Cookie = Cookie(name: string, value: string, options: Assoc.Dict<string>)

  /** The first and second `=`-separated pieces of a cookie option (`s[0]`, `s[1]` of `line.split("=")`). */
  function OptionPair(line: string): (r: (string, string))
    requires Contains(line, "=")
    ensures var i := IndexOf(line, "=").value;
            r.0 == line[..i] && !Contains(r.1, "=") && StartsWith(line[i + 1..], r.1)
  {
    var i := IndexOf(line, "=").value;
    var rest := line[i + 1..];
    SplitAt(line, "=", i);
    var pieces := Split(line, "=");
    SplitPiecesAreFree(rest, "=");
    assert pieces[1] == Split(rest, "=")[0];
    SplitHead(rest, "=");
    (pieces[0], pieces[1])
  }

  /** The first piece of a split is a prefix of the text. */
  lemma SplitHead(s: string, sep: string)
    requires |sep| > 0
    ensures StartsWith(s, Split(s, sep)[0])
  {
    match IndexOf(s, sep)
    case None =>
    case Some(i) =>
  }

  /** The option dictionary of the segments after the value: segments without `=` are skipped, a later key wins. */
  function CookieOptions(segments: seq<string>): (r: Assoc.Dict<string>)
    ensures |segments| == 0 ==> r == []
  {
    if |segments| == 0 then []
    else
      var front := CookieOptions(segments[..|segments| - 1]);
      var line := segments[|segments| - 1];
      if Contains(line, "=") then Assoc.Put(front, OptionPair(line).0, OptionPair(line).1) else front
  }

  /** Exactly the keys of the segments that contain `=` become options. */
  lemma CookieOptionKeys(segments: seq<string>, k: string)
    ensures Assoc.HasKey(CookieOptions(segments), k) <==>
              exists i :: 0 <= i < |segments| && Contains(segments[i], "=") && OptionPair(segments[i]).0 == k
  {
    OptionKeysUpTo(segments, |segments|, k);
    SetsOptionAt(segments, |segments|, k);
    assert segments[..|segments|] == segments;
  }

  /** One of the first `n` segments sets option `k`. */
  predicate SetsOption(segments: seq<string>, n: nat, k: string)
    requires n <= |segments|
  {
    n > 0 && ((Contains(segments[n - 1], "=") && OptionPair(segments[n - 1]).0 == k) || SetsOption(segments, n - 1, k))
  }

  lemma {:induction false} SetsOptionAt(segments: seq<string>, n: nat, k: string)
    requires n <= |segments|
    ensures SetsOption(segments, n, k) <==> exists i :: 0 <= i < n && Contains(segments[i], "=") && OptionPair(segments[i]).0 == k
  {
    if n > 0 {
      SetsOptionAt(segments, n - 1, k);
    }
  }

  lemma {:induction false} OptionKeysUpTo(segments: seq<string>, n: nat, k: string)
    requires n <= |segments|
    ensures Assoc.HasKey(CookieOptions(segments[..n]), k) <==> SetsOption(segments, n, k)
  {
    if n > 0 {
      OptionKeysUpTo(segments, n - 1, k);
      var prefix := segments[..n];
      assert prefix[..n - 1] == segments[..n - 1];
      var line := segments[n - 1];
      assert prefix[n - 1] == line;
      var front := CookieOptions(segments[..n - 1]);
      if Contains(line, "=") {
        Assoc.PutHasKeyAt(front, OptionPair(line).0, OptionPair(line).1, k);
      }
    } else {
      assert CookieOptions(segments[..0]) == [];
    }
  }

  /** The option of a segment that no later segment overrides is the one stored. */
  lemma {:induction false} CookieOptionLastWins(segments: seq<string>, i: nat)
    requires i < |segments| && Contains(segments[i], "=") && LastWithKey(segments, i)
    ensures Assoc.Get(CookieOptions(segments), OptionPair(segments[i]).0) == Some(OptionPair(segments[i]).1)
  {
    var n := |segments| - 1;
    var front := segments[..n];
    var line := segments[n];
    if i < n {
      assert front[i] == segments[i];
      assert LastWithKey(front, i) by {
        forall j | i < j < |front| && Contains(front[j], "=") ensures OptionPair(front[j]).0 != OptionPair(front[i]).0 {
          assert front[j] == segments[j];
        }
      }
      CookieOptionLastWins(front, i);
    }
  }

  /** No later segment sets the key of segment `i`. */
  predicate LastWithKey(segments: seq<string>, i: nat)
    requires i < |segments| && Contains(segments[i], "=")
  {
    forall j :: i < j < |segments| && Contains(segments[j], "=") ==> OptionPair(segments[j]).0 != OptionPair(segments[i]).0
  }

  /** `CURLCookie(name, value)`: an empty value sets nothing; otherwise the value is the text before the first `;`. */
  function ParseCookie(name: string, value: string): (r: Cookie)
    ensures r.name == name
    ensures !Contains(r.value, ";") && StartsWith(value, r.value)
    ensures !Contains(value, ";") ==> r.value == value && r.options == []
    ensures value == "" ==> r.options == []
  {
    if value == "" then Cookie(name, "", [])
    else
      var segments := Split(value, ";");
      SplitPiecesAreFree(value, ";");
      SplitHead(value, ";");
      assert segments[0] in segments;
      Cookie(name, segments[0], CookieOptions(segments[1..]))
  }

  /** `str(cookie)`. */
  function CookieText(c: Cookie): (r: string)
    ensures |r| == |c.name| + 1 + |c.value| && r[|c.name|] == '='
    ensures r[..|c.name|] == c.name && r[|c.name| + 1..] == c.value
  {
    c.name + "=" + c.value
  }

  /**
   * A cookie written out by `str` and read back the way `response_cookies`
   * reads a `Set-Cookie` value (split once at `=`) keeps its name and value.
   */
  lemma CookieTextReadsBack(name: string, value: string)
    requires !Contains(name, "=")
    ensures var c := ParseCookie(name, value);
            var line := CookieText(c);
            IndexOf(line, "=") == Some(|name|) &&
            ParseCookie(line[..|name|], line[|name| + 1..]).name == name &&
            ParseCookie(line[..|name|], line[|name| + 1..]).value == c.value
  {
    var c := ParseCookie(name, value);
    var line := CookieText(c);
    assert OccursAt(line, "=", |name|);
    forall j | 0 <= j < |name| ensures !OccursAt(line, "=", j) {
      assert !OccursAt(name, "=", j);
      assert line[j..j + 1] == name[j..j + 1];
    }
  }

  // ------------------------------------------------------- response headers

  /** A response header: one value, or the list of every value of a repeated header. */
  datatype HeaderValue = One(text: string) | Many(texts: seq<string>)

  /** The values of `k` among the received pairs, in arrival order. */
  function ValuesOf(items: seq<(string, string)>, k: string): (r: seq<string>)
    ensures |r| <= |items|
  {
    if |items| == 0 then []
    else
      var front := ValuesOf(items[..|items| - 1], k);
      if items[|items| - 1].0 == k then front + [items[|items| - 1].1] else front
  }

  /** How `_parse_headers` presents the values of one name. */
  function Collected(vs: seq<string>): Option<HeaderValue> {
    if |vs| == 0 then None else if |vs| == 1 then Some(One(vs[0])) else Some(Many(vs))
  }

  /** The texts of a header so far; a single text becomes a list of one. */
  function Texts(h: HeaderValue): (r: seq<string>)
    ensures h.One? ==> r == [h.text]
    ensures h.Many? ==> r == h.texts
  {
    match h
    case One(t) => [t]
    case Many(ts) => ts
  }

  /** `_parse_headers`: a name seen once keeps its text, a repeated one collects every value. */
  function ParseHeaders(items: seq<(string, string)>): (r: Assoc.Dict<HeaderValue>)
  {
    if |items| == 0 then []
    else
      var front := ParseHeaders(items[..|items| - 1]);
      var (k, v) := items[|items| - 1];
      match Assoc.Get(front, k)
      case None => Assoc.Put(front, k, One(v))
      case Some(seen) => Assoc.Put(front, k, Many(Texts(seen) + [v]))
  }

  /** Every name maps to all of its values in arrival order, a single value unwrapped. */
  lemma {:induction false} ParseHeadersCollects(items: seq<(string, string)>, k: string)
    ensures Assoc.Get(ParseHeaders(items), k) == Collected(ValuesOf(items, k))
  {
    if |items| > 0 {
      var front := items[..|items| - 1];
      ParseHeadersCollects(front, k);
      var (k', v) := items[|items| - 1];
      var before := ParseHeaders(front);
      var vs := ValuesOf(front, k);
      if k' == k {
        assert ValuesOf(items, k) == vs + [v];
        match Assoc.Get(before, k)
        case None =>
          assert ParseHeaders(items) == Assoc.Put(before, k, One(v));
        case Some(seen) =>
          assert ParseHeaders(items) == Assoc.Put(before, k, Many(Texts(seen) + [v]));
          assert Texts(seen) == vs;
      } else {
        assert ValuesOf(items, k) == vs;
      }
    }
  }

  /** `content_encoding` on its first use: the lower-cased text after `=` in the last `;`-segment that mentions `charset`, else `utf-8`. */
  function ContentEncoding(headers: Assoc.Dict<HeaderValue>): (r: Result<string, Exc>)
    ensures Assoc.Get(headers, "Content-Encoding").None? ==> r == Ok("utf-8")
    ensures (exists vs :: Assoc.Get(headers, "Content-Encoding") == Some(Many(vs))) ==> r.Err?
  {
    match Assoc.Get(headers, "Content-Encoding")
    case None => Ok("utf-8")
    case Some(h) =>
      // a repeated header is a list, which has no `split`
      if h.Many? then Err(AttributeError("split"))
      else
        var parts := Split(h.text, ";");
        match LastCharset(parts, |parts|)
        case None => Ok("utf-8")
        case Some(i) => Ok(Lower(After(parts[i], "=")))
  }

  /** The position of the last of the first `n` parts that contains `charset`. */
  function LastCharset(parts: seq<string>, n: nat): (r: Option<nat>)
    requires n <= |parts|
    ensures r.None? <==> forall i :: 0 <= i < n ==> !Contains(parts[i], "charset")
    ensures r.Some? ==> r.value < n && Contains(parts[r.value], "charset")
    ensures r.Some? ==> forall j :: r.value < j < n ==> !Contains(parts[j], "charset")
  {
    if n == 0 then None
    else if Contains(parts[n - 1], "charset") then Some(n - 1)
    else LastCharset(parts, n - 1)
  }

  // ----------------------------------------------------------- request body

  /** `re.search("[^=]+=[^&]*&*", data)` succeeds: some `=` follows a character that is not `=`. */
  predicate FormPattern(data: string) {
    exists j :: 0 < j < |data| && data[j] == '=' && data[j - 1] != '='
  }

  /** The scan of the pattern over the first `n` characters. */
  function FormPairIn(data: string, n: nat): (r: bool)
    requires n <= |data|
    ensures r <==> exists j :: 0 < j < n && data[j] == '=' && data[j - 1] != '='
  {
    if n < 2 then false
    else (data[n - 1] == '=' && data[n - 2] != '=') || FormPairIn(data, n - 1)
  }

  /** `__detect_str_type`. */
  function DetectStrType(data: string): (r: string)
    ensures r == "application/x-www-form-urlencoded" <==> FormPattern(data)
    ensures r == "application/x-www-form-urlencoded" || r == "plain/text"
  {
    if FormPairIn(data, |data|) then "application/x-www-form-urlencoded" else "plain/text"
  }

  /** A request body as `curl` receives it. */
  datatype Body =
    | Text(text: string)
    | Raw(bytes: seq<Utf8.Byte>)
    /** A dict, list, set or tuple, sent as JSON. */
    | Container
    /** Any other value, which has no length. */
    | Scalar

  /** `__parse_content`: text is encoded as UTF-8 and labelled; other values pass through without headers. */
  function ParseContent(data: Body): (r: Result<(Body, Assoc.Dict<string>), Exc>)
    ensures data.Text? ==> r.Ok? && r.value.0.Raw? && Utf8.Decode(r.value.0.bytes) == Some(data.text)
    ensures data.Text? ==> r.value.1 == [("Content-Type", DetectStrType(data.text) + "; charset=UTF-8")]
    ensures data.Raw? || data.Scalar? ==> r == Ok((data, []))
  {
    match data
    case Container => Err(NotModelled("json.dumps"))
    case Text(s) =>
      Utf8.DecodeEncode(s);
      Ok((Raw(Utf8.Encode(s)), [("Content-Type", DetectStrType(s) + "; charset=UTF-8")]))
    case _ => Ok((data, []))
  }

  // ----------------------------------------------------------- credentials

  /** `CURLAuth(user, password, force, headers)`. */
  datatype Auth = Auth(user: string, password: string, force: bool, headers: Option<Assoc.Dict<string>>)

  /** The token of `get_auth_header`: `encodebytes` of the UTF-8 of `user:password`, newlines removed. */
  function Token(a: Auth): (r: string)
    ensures '\n' !in r
    ensures r == Base64.Encode(Utf8.Encode(a.user + ":" + a.password))
  {
    var raw := Utf8.Encode(a.user + ":" + a.password);
    Base64.EncodeLinesJoined(raw);
    Base64.RemoveNewlines(Base64.EncodeLines(raw))
  }

  /** `get_auth_header`. */
  function AuthHeader(a: Auth): (r: Assoc.Dict<string>)
    ensures Assoc.Get(r, "Authorization") == Some("Basic " + Token(a))
    ensures forall k :: Assoc.HasKey(r, k) ==> k == "Authorization"
  {
    [("Authorization", "Basic " + Token(a))]
  }

  /** The token carries the credentials: it decodes to the UTF-8 of `user:password`, which decodes to that text. */
  lemma TokenReadsBack(a: Auth)
    ensures Base64.Decode(Token(a)) == Some(Utf8.Encode(a.user + ":" + a.password))
    ensures Utf8.Decode(Base64.Decode(Token(a)).value) == Some(a.user + ":" + a.password)
  {
    Base64.DecodeEncode(Utf8.Encode(a.user + ":" + a.password));
    Utf8.DecodeEncode(a.user + ":" + a.password);
  }

  /** `CURLAuth.headers` as written: with `force` and no headers, `dict.update(None)` raises. */
  function AuthHeadersAsWritten(a: Auth): (r: Result<Option<Assoc.Dict<string>>, Exc>)
    ensures a.force && a.headers.None? ==> r == Err(TypeError)
  {
    if !a.force then Ok(a.headers)
    else match a.headers
      case None => Err(TypeError)
      case Some(h) => Ok(Some(Assoc.Update(Assoc.Update([], h), AuthHeader(a))))
  }

  /** `CURLAuth.headers` with absent headers read as `{}`: with `force`, the caller's headers under the `Authorization` header. */
  function AuthHeaders(a: Auth): (r: Option<Assoc.Dict<string>>)
    ensures !a.force ==> r == a.headers
    ensures a.force ==> r.Some? && Assoc.Get(r.value, "Authorization") == Some("Basic " + Token(a))
    ensures a.force ==> Assoc.DistinctKeys(r.value)
    ensures a.force ==> forall k :: k != "Authorization" ==>
              Assoc.Get(r.value, k) == (if a.headers.Some? then Assoc.GetLast(a.headers.value, k) else None)
  {
    if !a.force then a.headers
    else
      var h := if a.headers.Some? then a.headers.value else [];
      var base := Assoc.Update([], h);
      assert forall k :: Assoc.Get(base, k) == Assoc.GetLast(h, k) by {
        forall k ensures Assoc.Get(base, k) == Assoc.GetLast(h, k) {
          if !Assoc.HasKey(h, k) { assert Assoc.Get<string>([], k) == None; }
        }
      }
      Assoc.UpdateValues([], h);
      Assoc.UpdateValues(base, AuthHeader(a));
      Some(Assoc.Update(base, AuthHeader(a)))
  }

  /** The two agree wherever the code as written does not raise. */
  lemma AuthHeadersAgree(a: Auth)
    requires !(a.force && a.headers.None?)
    ensures AuthHeadersAsWritten(a) == Ok(AuthHeaders(a))
  {
  }


  // -------------------------------------------------------- request headers

  datatype Method = GET | POST | PUT | DELETE | Unknown(name: string)

  /** A request header value: text, or the integer `Content-Length`. */
  datatype Field = Str(s: string) | Length(n: nat)

  /** Text headers as request header values. */
  function AsFields(d: Assoc.Dict<string>): (r: Assoc.Dict<Field>)
    ensures |r| == |d| && forall i :: 0 <= i < |d| ==> r[i] == (d[i].0, Str(d[i].1))
  {
    seq(|d|, i requires 0 <= i < |d| => (d[i].0, Str(d[i].1)))
  }

  lemma {:induction false} AsFieldsGetLast(d: Assoc.Dict<string>, k: string)
    ensures Assoc.HasKey(AsFields(d), k) <==> Assoc.HasKey(d, k)
    ensures Assoc.GetLast(AsFields(d), k) == if Assoc.HasKey(d, k) then Some(Str(Assoc.GetLast(d, k).value)) else None
  {
    var r := AsFields(d);
    if Assoc.HasKey(d, k) { var i :| 0 <= i < |d| && d[i].0 == k; assert r[i].0 == k; }
    if Assoc.HasKey(r, k) { var i :| 0 <= i < |r| && r[i].0 == k; assert d[i].0 == k; }
    if |d| > 0 {
      var n := |d| - 1;
      AsFieldsGetLast(d[..n], k);
      assert AsFields(d)[..n] == AsFields(d[..n]);
    }
  }

  /** The bytes sent for a text or bytes body. */
  function RawBytes(data: Body): seq<Utf8.Byte>
    requires data.Text? || data.Raw?
  {
    if data.Text? then Utf8.Encode(data.text) else data.bytes
  }

  /** The headers and payload of a POST or PUT body (lines 335-339). */
  function BodyStage(m: Method, data: Option<Body>): (r: Result<(Assoc.Dict<Field>, Option<Body>), Exc>)
    ensures r.Ok? ==> forall k :: Assoc.HasKey(r.value.0, k) ==> k == "Content-Type" || k == "Content-Length"
    ensures !((m == POST || m == PUT) && data.Some?) ==> r == Ok(([], None))
    ensures (m == POST || m == PUT) && data.Some? && (data.value.Text? || data.value.Raw?) ==>
              r.Ok? && r.value.1 == Some(Raw(RawBytes(data.value))) &&
              Assoc.Get(r.value.0, "Content-Length") == Some(Length(|RawBytes(data.value)|))
    ensures (m == POST || m == PUT) && data.Some? && data.value.Text? ==>
              Assoc.Get(r.value.0, "Content-Type") == Some(Str(DetectStrType(data.value.text) + "; charset=UTF-8"))
  {
    if (m == POST || m == PUT) && data.Some? then
      var (payload, hs) :- ParseContent(data.value);
      match payload
      case Raw(b) =>
        var typed := Assoc.Update([], AsFields(hs));
        assert forall k :: k != "Content-Type" ==> !Assoc.HasKey(typed, k) by {
          forall k | k != "Content-Type" ensures !Assoc.HasKey(typed, k) {
            AsFieldsGetLast(hs, k);
            assert Assoc.Get<Field>([], k) == None;
          }
        }
        AsFieldsGetLast(hs, "Content-Type");
        Assoc.PutHasKey(typed, "Content-Length", Length(|b|));
        Ok((Assoc.Put(typed, "Content-Length", Length(|b|)), Some(payload)))
      // `len()` of a value that has none
      case _ => Err(TypeError)
    else Ok(([], None))
  }

  /** `use_gzip` (lines 341-346). */
  function GzipStage(h: Assoc.Dict<Field>, useGzip: bool): (r: Result<Assoc.Dict<Field>, Exc>)
    ensures !useGzip ==> r == Ok(h)
    ensures useGzip && !Assoc.HasKey(h, "Accept-Encoding") ==> r.Ok? && Assoc.Get(r.value, "Accept-Encoding") == Some(Str(GzipAccepted))
    ensures r.Ok? ==> forall k :: k != "Accept-Encoding" ==> Assoc.Get(r.value, k) == Assoc.Get(h, k)
  {
    if !useGzip then Ok(h)
    else match Assoc.Get(h, "Accept-Encoding")
      case None => Ok(Assoc.Put(h, "Accept-Encoding", Str(GzipAccepted)))
      case Some(f) =>
        if !f.Str? then Err(TypeError)
        else if Contains(f.s, "gzip") then Ok(h)
        else Ok(Assoc.Put(h, "Accept-Encoding", Str(f.s + ", " + GzipAccepted)))
  }

  const GzipAccepted := "gzip, x-gzip, deflate"

  /** `str(cookie)` of every cookie that has not expired, in order. */
  function LiveCookies(cookies: seq<Cookie>, expired: Cookie -> bool): (r: seq<string>)
    ensures |r| <= |cookies|
  {
    if |cookies| == 0 then []
    else
      var rest := LiveCookies(cookies[1..], expired);
      if expired(cookies[0]) then rest else [CookieText(cookies[0])] + rest
  }

  /** Exactly the cookies that have not expired are sent. */
  lemma {:induction false} LiveCookiesAre(cookies: seq<Cookie>, expired: Cookie -> bool)
    ensures forall s :: s in LiveCookies(cookies, expired) ==> exists c :: c in cookies && !expired(c) && s == CookieText(c)
    ensures forall c :: c in cookies && !expired(c) ==> CookieText(c) in LiveCookies(cookies, expired)
  {
    if |cookies| > 0 {
      LiveCookiesAre(cookies[1..], expired);
      assert forall c :: c in cookies ==> c == cookies[0] || c in cookies[1..];
    }
  }

  /** The cookie header: live cookies first, then the parts of a cookie header already set, `; `-separated. */
  function CookieLine(live: seq<string>, existing: Option<string>): string {
    match existing
    case None => Join(live, "; ")
    case Some(v) => if |live| == 0 then v else Join(live, "; ") + "; " + v
  }

  /** Splitting an existing cookie header at `; ` and joining it after the live cookies appends it unchanged. */
  lemma CookieJoin(live: seq<string>, existing: string)
    ensures Join(live + Split(existing, "; "), "; ") == CookieLine(live, Some(existing))
  {
    JoinSplit(existing, "; ");
    if |live| > 0 {
      JoinAppend(live, Split(existing, "; "), "; ");
    } else {
      assert live + Split(existing, "; ") == Split(existing, "; ");
    }
  }

  /** The text of the `cookie` header already set, if it is text. */
  function PresentCookie(h: Assoc.Dict<Field>): Option<string> {
    var f := Assoc.Get(h, "cookie");
    if f.Some? && f.value.Str? then Some(f.value.s) else None
  }

  /** The cookies (lines 359-364); only sent when some other header is. */
  function CookieStage(h: Assoc.Dict<Field>, cookies: seq<Cookie>, expired: Cookie -> bool): (r: Result<Assoc.Dict<Field>, Exc>)
    ensures |cookies| == 0 || |h| == 0 ==> r == Ok(h)
    ensures r.Ok? ==> forall k :: k != "cookie" ==> Assoc.Get(r.value, k) == Assoc.Get(h, k)
    ensures r.Ok? && |cookies| > 0 && |h| > 0 ==>
              Assoc.Get(r.value, "cookie") ==
                Some(Str(CookieLine(LiveCookies(cookies, expired), PresentCookie(h))))
    ensures (|cookies| > 0 && |h| > 0 && r.Err?) <==> (|cookies| > 0 && |h| > 0 && Assoc.HasKey(h, "cookie") && Assoc.Get(h, "cookie").value.Length?)
  {
    if |cookies| == 0 || |h| == 0 then Ok(h)
    else
      var live := LiveCookies(cookies, expired);
      match Assoc.Get(h, "cookie")
      case None => Ok(Assoc.Put(h, "cookie", Str(Join(live, "; "))))
      case Some(f) =>
        if !f.Str? then Err(AttributeError("split"))
        else
          CookieJoin(live, f.s);
          Ok(Assoc.Put(h, "cookie", Str(Join(live + Split(f.s, "; "), "; "))))
  }

  /** What `curl` sends: the header table and the body. */
  datatype Request = Request(headers: Assoc.Dict<Field>, body: Option<Body>)

  /**
   * Whether line 354 raises: reading `auth.headers` of forced credentials
   * without headers fails as written (`CURLAuth.headers`, lines 223-224), and
   * never as intended.
   */
  predicate AuthRaises(auth: Option<Auth>, mode: Check) {
    mode == Written && auth.Some? && auth.value.force && AuthHeadersAsWritten(auth.value).Err?
  }

  /** The request `curl` builds before opening the connection (lines 320-364). */
  function BuildRequest(m: Method, data: Option<Body>, auth: Option<Auth>, headers: Option<Assoc.Dict<string>>,
                        cookies: seq<Cookie>, expired: Cookie -> bool, useGzip: bool, mode: Check): (r: Result<Request, Exc>)
    ensures m.Unknown? ==> r == Err(IOError("Wrong request column_type \"" + m.name + "\" passed"))
  {
    if m.Unknown? then Err(IOError("Wrong request column_type \"" + m.name + "\" passed"))
    else
      match BodyStage(m, data)
      case Err(e) => Err(e)
      case Ok(prepared) => Finish(prepared.0, prepared.1, auth, headers, cookies, expired, useGzip, mode)
  }

  /** The request once the body is prepared. */
  function Finish(h0: Assoc.Dict<Field>, body: Option<Body>, auth: Option<Auth>, headers: Option<Assoc.Dict<string>>,
                  cookies: seq<Cookie>, expired: Cookie -> bool, useGzip: bool, mode: Check): (r: Result<Request, Exc>)
    ensures r.Ok? ==> r.value.body == body
    ensures GzipStage(h0, useGzip).Ok? && AuthRaises(auth, mode) ==> r == Err(TypeError)
  {
    match GzipStage(h0, useGzip)
    case Err(e) => Err(e)
    case Ok(h1) =>
      if AuthRaises(auth, mode) then Err(AuthHeadersAsWritten(auth.value).error)
      else match CookieStage(CallerStage(AuthStage(h1, auth), headers), cookies, expired)
      case Err(e) => Err(e)
      case Ok(h4) => Ok(Request(h4, body))
  }

  /** A request `Finish` builds carries the headers of the last stage. */
  lemma FinishIs(h0: Assoc.Dict<Field>, body: Option<Body>, auth: Option<Auth>, headers: Option<Assoc.Dict<string>>,
                 cookies: seq<Cookie>, expired: Cookie -> bool, useGzip: bool, mode: Check)
    requires Finish(h0, body, auth, headers, cookies, expired, useGzip, mode).Ok?
    ensures GzipStage(h0, useGzip).Ok? && !AuthRaises(auth, mode)
    ensures var h3 := CallerStage(AuthStage(GzipStage(h0, useGzip).value, auth), headers);
            && CookieStage(h3, cookies, expired).Ok?
            && Finish(h0, body, auth, headers, cookies, expired, useGzip, mode).value.headers == CookieStage(h3, cookies, expired).value
  {
  }

  /**
   * `_headers.update(auth.headers)` for forced credentials (lines 353-354),
   * with the headers `CURLAuth.headers` gives when it does not raise;
   * `Finish` raises first where it does.
   */
  function AuthStage(h: Assoc.Dict<Field>, auth: Option<Auth>): (r: Assoc.Dict<Field>)
    ensures auth.None? || !auth.value.force ==> r == h
  {
    if auth.Some? && auth.value.force then Assoc.Update(h, AsFields(AuthHeaders(auth.value).value)) else h
  }

  /** Forced credentials set the `Authorization` header and their own headers, and keep the rest. */
  lemma AuthStageGet(h: Assoc.Dict<Field>, auth: Option<Auth>, k: string)
    requires auth.Some? && auth.value.force
    ensures Assoc.Get(AuthStage(h, auth), k) == AuthField(h, auth.value, k)
  {
    var given := AuthHeaders(auth.value).value;
    AsFieldsGetLast(given, k);
    Assoc.GetLastDistinct(given, k);
  }

  /** Header `k` after forced credentials `a` were stored over `h`. */
  function AuthField(h: Assoc.Dict<Field>, a: Auth, k: string): Option<Field> {
    if k == "Authorization" then Some(Str("Basic " + Token(a)))
    else if a.headers.Some? && Assoc.HasKey(a.headers.value, k) then Some(Str(Assoc.GetLast(a.headers.value, k).value))
    else Assoc.Get(h, k)
  }

  /** `_headers.update(headers)` (lines 356-357): the caller's headers override. */
  function CallerStage(h: Assoc.Dict<Field>, headers: Option<Assoc.Dict<string>>): (r: Assoc.Dict<Field>)
    ensures headers.None? ==> r == h
  {
    if headers.Some? then Assoc.Update(h, AsFields(headers.value)) else h
  }

  /** The caller's headers override: the last value given for a name wins, other headers are kept. */
  lemma CallerStageGet(h: Assoc.Dict<Field>, headers: Option<Assoc.Dict<string>>, k: string)
    requires headers.Some?
    ensures Assoc.Get(CallerStage(h, headers), k) ==
              (if Assoc.HasKey(headers.value, k) then Some(Str(Assoc.GetLast(headers.value, k).value)) else Assoc.Get(h, k))
  {
    AsFieldsGetLast(headers.value, k);
  }

  /** Whether the forced credentials or the caller's headers set header `k` themselves. */
  predicate Overridden(auth: Option<Auth>, headers: Option<Assoc.Dict<string>>, k: string) {
    || (headers.Some? && Assoc.HasKey(headers.value, k))
    || (auth.Some? && auth.value.force && (k == "Authorization" || (auth.value.headers.Some? && Assoc.HasKey(auth.value.headers.value, k))))
  }

  /** The existing `cookie` header the cookies are joined with. */
  function PresetCookie(auth: Option<Auth>, headers: Option<Assoc.Dict<string>>): Option<string> {
    if headers.Some? && Assoc.HasKey(headers.value, "cookie") then Assoc.GetLast(headers.value, "cookie")
    else if auth.Some? && auth.value.force && auth.value.headers.Some? && Assoc.HasKey(auth.value.headers.value, "cookie")
    then Assoc.GetLast(auth.value.headers.value, "cookie")
    else None
  }

  /** The header table after the forced credentials and the caller's headers. */
  lemma LaterStages(h: Assoc.Dict<Field>, auth: Option<Auth>, headers: Option<Assoc.Dict<string>>, k: string)
    ensures !Overridden(auth, headers, k) ==> Assoc.Get(CallerStage(AuthStage(h, auth), headers), k) == Assoc.Get(h, k)
    ensures k == "cookie" && PresetCookie(auth, headers).Some? ==>
              Assoc.Get(CallerStage(AuthStage(h, auth), headers), k) == Some(Str(PresetCookie(auth, headers).value))
    ensures k == "cookie" && PresetCookie(auth, headers).None? ==>
              Assoc.Get(CallerStage(AuthStage(h, auth), headers), k) == Assoc.Get(h, k)
  {
    var h2 := AuthStage(h, auth);
    if auth.Some? && auth.value.force {
      AuthStageGet(h, auth, k);
    }
    if headers.Some? {
      CallerStageGet(h2, headers, k);
    }
  }

  /** A known method with a body `curl` can measure gives a request exactly when reading the credentials does not raise. */
  lemma RequestBuilt(m: Method, data: Option<Body>, auth: Option<Auth>, headers: Option<Assoc.Dict<string>>,
                     cookies: seq<Cookie>, expired: Cookie -> bool, useGzip: bool, mode: Check)
    requires !m.Unknown?
    requires (m == POST || m == PUT) && data.Some? ==> data.value.Text? || data.value.Raw?
    ensures BuildRequest(m, data, auth, headers, cookies, expired, useGzip, mode).Ok? <==> !AuthRaises(auth, mode)
    ensures AuthRaises(auth, mode) ==> BuildRequest(m, data, auth, headers, cookies, expired, useGzip, mode) == Err(TypeError)
  {
    var prepared := BodyStage(m, data).value;
    var h0 := prepared.0;
    FinishBuilt(h0, prepared.1, auth, headers, cookies, expired, useGzip, mode);
  }

  lemma FinishBuilt(h0: Assoc.Dict<Field>, body: Option<Body>, auth: Option<Auth>, headers: Option<Assoc.Dict<string>>,
                    cookies: seq<Cookie>, expired: Cookie -> bool, useGzip: bool, mode: Check)
    requires forall k :: Assoc.HasKey(h0, k) ==> k == "Content-Type" || k == "Content-Length"
    ensures Finish(h0, body, auth, headers, cookies, expired, useGzip, mode).Ok? <==> !AuthRaises(auth, mode)
    ensures AuthRaises(auth, mode) ==> Finish(h0, body, auth, headers, cookies, expired, useGzip, mode) == Err(TypeError)
  {
    assert !Assoc.HasKey(h0, "Accept-Encoding") && !Assoc.HasKey(h0, "cookie");
    StagesOk(h0, auth, headers, cookies, expired, useGzip);
    if !AuthRaises(auth, mode) {
      FinishOk(h0, body, auth, headers, cookies, expired, useGzip, mode);
    }
  }

  /** On a table without either header, gzip and the cookie stage cannot fail. */
  lemma StagesOk(h0: Assoc.Dict<Field>, auth: Option<Auth>, headers: Option<Assoc.Dict<string>>,
                 cookies: seq<Cookie>, expired: Cookie -> bool, useGzip: bool)
    requires !Assoc.HasKey(h0, "Accept-Encoding") && !Assoc.HasKey(h0, "cookie")
    ensures GzipStage(h0, useGzip).Ok?
    ensures CookieStage(CallerStage(AuthStage(GzipStage(h0, useGzip).value, auth), headers), cookies, expired).Ok?
  {
    var h1 := GzipStage(h0, useGzip).value;
    assert Assoc.Get(h1, "cookie") == Assoc.Get(h0, "cookie") == None;
    LaterStages(h1, auth, headers, "cookie");
  }

  /** After the body: headers that neither the credentials nor the caller set, and that `curl` does not add later, are kept. */
  lemma FinishKeeps(h0: Assoc.Dict<Field>, body: Option<Body>, auth: Option<Auth>, headers: Option<Assoc.Dict<string>>,
                    cookies: seq<Cookie>, expired: Cookie -> bool, useGzip: bool, mode: Check, k: string)
    requires Finish(h0, body, auth, headers, cookies, expired, useGzip, mode).Ok?
    requires k != "cookie" && k != "Accept-Encoding" && !Overridden(auth, headers, k)
    ensures Assoc.Get(Finish(h0, body, auth, headers, cookies, expired, useGzip, mode).value.headers, k) == Assoc.Get(h0, k)
  {
    var h1 := GzipStage(h0, useGzip).value;
    LaterStages(h1, auth, headers, k);
  }

  /** A text body of a POST or PUT is sent as UTF-8 with its length and type, unless the caller sets those headers. */
  lemma TextBodyHeaders(m: Method, s: string, auth: Option<Auth>, headers: Option<Assoc.Dict<string>>,
                        cookies: seq<Cookie>, expired: Cookie -> bool, useGzip: bool, mode: Check)
    requires m == POST || m == PUT
    ensures var r := BuildRequest(m, Some(Text(s)), auth, headers, cookies, expired, useGzip, mode);
            (r.Ok? <==> !AuthRaises(auth, mode)) && (r.Ok? ==> r.value.body == Some(Raw(Utf8.Encode(s))))
    ensures var r := BuildRequest(m, Some(Text(s)), auth, headers, cookies, expired, useGzip, mode);
            r.Ok? && !Overridden(auth, headers, "Content-Length") ==>
              Assoc.Get(r.value.headers, "Content-Length") == Some(Length(|Utf8.Encode(s)|))
    ensures var r := BuildRequest(m, Some(Text(s)), auth, headers, cookies, expired, useGzip, mode);
            r.Ok? && !Overridden(auth, headers, "Content-Type") ==>
              Assoc.Get(r.value.headers, "Content-Type") == Some(Str(DetectStrType(s) + "; charset=UTF-8"))
  {
    RequestBuilt(m, Some(Text(s)), auth, headers, cookies, expired, useGzip, mode);
    var prepared := BodyStage(m, Some(Text(s))).value;
    if !AuthRaises(auth, mode) && !Overridden(auth, headers, "Content-Length") {
      FinishKeeps(prepared.0, prepared.1, auth, headers, cookies, expired, useGzip, mode, "Content-Length");
    }
    if !AuthRaises(auth, mode) && !Overridden(auth, headers, "Content-Type") {
      FinishKeeps(prepared.0, prepared.1, auth, headers, cookies, expired, useGzip, mode, "Content-Type");
    }
  }

  /** GET and DELETE send no body, whatever data is given. */
  lemma NoBodyWithoutPost(m: Method, data: Option<Body>, auth: Option<Auth>, headers: Option<Assoc.Dict<string>>,
                          cookies: seq<Cookie>, expired: Cookie -> bool, useGzip: bool, mode: Check)
    requires m == GET || m == DELETE
    ensures var r := BuildRequest(m, data, auth, headers, cookies, expired, useGzip, mode);
            (r.Ok? <==> !AuthRaises(auth, mode)) &&
            (r.Ok? ==> r.value.body == None && (!Overridden(auth, headers, "Content-Length") ==> !Assoc.HasKey(r.value.headers, "Content-Length")))
  {
    RequestBuilt(m, data, auth, headers, cookies, expired, useGzip, mode);
    if !AuthRaises(auth, mode) && !Overridden(auth, headers, "Content-Length") {
      FinishKeeps([], None, auth, headers, cookies, expired, useGzip, mode, "Content-Length");
      assert Assoc.Get<Field>([], "Content-Length") == None;
    }
  }

  /** With `use_gzip` the compressed encodings are accepted, unless the caller says otherwise. */
  lemma GzipAcceptedByDefault(m: Method, data: Option<Body>, auth: Option<Auth>, headers: Option<Assoc.Dict<string>>,
                              cookies: seq<Cookie>, expired: Cookie -> bool, mode: Check)
    requires BuildRequest(m, data, auth, headers, cookies, expired, true, mode).Ok?
    requires !Overridden(auth, headers, "Accept-Encoding")
    ensures Assoc.Get(BuildRequest(m, data, auth, headers, cookies, expired, true, mode).value.headers, "Accept-Encoding") == Some(Str(GzipAccepted))
  {
    var prepared := BodyStage(m, data).value;
    FinishGzip(prepared.0, prepared.1, auth, headers, cookies, expired, mode);
  }

  lemma FinishGzip(h0: Assoc.Dict<Field>, body: Option<Body>, auth: Option<Auth>, headers: Option<Assoc.Dict<string>>,
                   cookies: seq<Cookie>, expired: Cookie -> bool, mode: Check)
    requires Finish(h0, body, auth, headers, cookies, expired, true, mode).Ok?
    requires !Assoc.HasKey(h0, "Accept-Encoding") && !Overridden(auth, headers, "Accept-Encoding")
    ensures Assoc.Get(Finish(h0, body, auth, headers, cookies, expired, true, mode).value.headers, "Accept-Encoding") == Some(Str(GzipAccepted))
  {
    var h1 := GzipStage(h0, true).value;
    LaterStages(h1, auth, headers, "Accept-Encoding");
  }

  /** The caller's headers win over everything `curl` sets, except a `cookie` header that cookies extend. */
  lemma CallerHeadersWin(m: Method, data: Option<Body>, auth: Option<Auth>, headers: Assoc.Dict<string>,
                         cookies: seq<Cookie>, expired: Cookie -> bool, useGzip: bool, mode: Check, k: string)
    requires BuildRequest(m, data, auth, Some(headers), cookies, expired, useGzip, mode).Ok?
    requires Assoc.HasKey(headers, k) && k != "cookie"
    ensures Assoc.Get(BuildRequest(m, data, auth, Some(headers), cookies, expired, useGzip, mode).value.headers, k) == Some(Str(Assoc.GetLast(headers, k).value))
  {
    BuildIsFinish(m, data, auth, Some(headers), cookies, expired, useGzip, mode);
    FinishCaller(BodyStage(m, data).value.0, BodyStage(m, data).value.1, auth, headers, cookies, expired, useGzip, mode, k);
  }

  lemma FinishCaller(h0: Assoc.Dict<Field>, body: Option<Body>, auth: Option<Auth>, headers: Assoc.Dict<string>,
                     cookies: seq<Cookie>, expired: Cookie -> bool, useGzip: bool, mode: Check, k: string)
    requires Finish(h0, body, auth, Some(headers), cookies, expired, useGzip, mode).Ok?
    requires Assoc.HasKey(headers, k) && k != "cookie"
    ensures Assoc.Get(Finish(h0, body, auth, Some(headers), cookies, expired, useGzip, mode).value.headers, k) == Some(Str(Assoc.GetLast(headers, k).value))
  {
    FinishIs(h0, body, auth, Some(headers), cookies, expired, useGzip, mode);
    var h2 := AuthStage(GzipStage(h0, useGzip).value, auth);
    CallerStageGet(h2, Some(headers), k);
  }

  /**
   * With `use_gzip`, the cookie header lists the cookies that have not
   * expired, then the parts of a cookie header the caller or the forced
   * credentials already set.
   */
  lemma CookieHeader(m: Method, data: Option<Body>, auth: Option<Auth>, headers: Option<Assoc.Dict<string>>,
                     cookies: seq<Cookie>, expired: Cookie -> bool, mode: Check)
    requires BuildRequest(m, data, auth, headers, cookies, expired, true, mode).Ok?
    requires |cookies| > 0
    ensures Assoc.Get(BuildRequest(m, data, auth, headers, cookies, expired, true, mode).value.headers, "cookie") ==
              Some(Str(CookieLine(LiveCookies(cookies, expired), PresetCookie(auth, headers))))
  {
    BuildIsFinish(m, data, auth, headers, cookies, expired, true, mode);
    FinishCookie(BodyStage(m, data).value.0, BodyStage(m, data).value.1, auth, headers, cookies, expired, mode);
  }

  /** A request that passes the method check is the body stage followed by `Finish`. */
  lemma BuildIsFinish(m: Method, data: Option<Body>, auth: Option<Auth>, headers: Option<Assoc.Dict<string>>,
                      cookies: seq<Cookie>, expired: Cookie -> bool, useGzip: bool, mode: Check)
    requires BuildRequest(m, data, auth, headers, cookies, expired, useGzip, mode).Ok?
    ensures !m.Unknown? && BodyStage(m, data).Ok?
    ensures !Assoc.HasKey(BodyStage(m, data).value.0, "Accept-Encoding") && !Assoc.HasKey(BodyStage(m, data).value.0, "cookie")
    ensures BuildRequest(m, data, auth, headers, cookies, expired, useGzip, mode) ==
              Finish(BodyStage(m, data).value.0, BodyStage(m, data).value.1, auth, headers, cookies, expired, useGzip, mode)
  {
  }

  /** A header once set stays set through the credentials and the caller's headers. */
  lemma StaysSet(h: Assoc.Dict<Field>, auth: Option<Auth>, headers: Option<Assoc.Dict<string>>, k: string)
    requires Assoc.Get(h, k).Some?
    ensures Assoc.Get(CallerStage(AuthStage(h, auth), headers), k).Some?
  {
    var h2 := AuthStage(h, auth);
    if auth.Some? && auth.value.force {
      AuthStageGet(h, auth, k);
    }
    if headers.Some? {
      CallerStageGet(h2, headers, k);
    }
  }

  lemma FinishCookie(h0: Assoc.Dict<Field>, body: Option<Body>, auth: Option<Auth>, headers: Option<Assoc.Dict<string>>,
                     cookies: seq<Cookie>, expired: Cookie -> bool, mode: Check)
    requires Finish(h0, body, auth, headers, cookies, expired, true, mode).Ok?
    requires |cookies| > 0 && !Assoc.HasKey(h0, "Accept-Encoding") && !Assoc.HasKey(h0, "cookie")
    ensures Assoc.Get(Finish(h0, body, auth, headers, cookies, expired, true, mode).value.headers, "cookie") ==
              Some(Str(CookieLine(LiveCookies(cookies, expired), PresetCookie(auth, headers))))
  {
    FinishIs(h0, body, auth, headers, cookies, expired, true, mode);
    CookieInputs(h0, auth, headers);
    var h3 := CallerStage(AuthStage(GzipStage(h0, true).value, auth), headers);
    CookieResult(h3, cookies, expired, PresetCookie(auth, headers));
  }

  /** What the cookie stage finds after gzip, the credentials and the caller's headers, on a table without either header. */
  lemma CookieInputs(h0: Assoc.Dict<Field>, auth: Option<Auth>, headers: Option<Assoc.Dict<string>>)
    requires !Assoc.HasKey(h0, "Accept-Encoding") && !Assoc.HasKey(h0, "cookie")
    ensures GzipStage(h0, true).Ok?
    ensures var h3 := CallerStage(AuthStage(GzipStage(h0, true).value, auth), headers);
            |h3| > 0 && PresentCookie(h3) == PresetCookie(auth, headers)
  {
    var h1 := GzipStage(h0, true).value;
    StaysSet(h1, auth, headers, "Accept-Encoding");
    assert Assoc.Get(h1, "cookie") == Assoc.Get(h0, "cookie") == None;
    ExistingCookie(h1, auth, headers);
  }

  /** The cookie stage on a non-empty header table writes the live cookies before the present cookie header. */
  lemma CookieResult(h: Assoc.Dict<Field>, cookies: seq<Cookie>, expired: Cookie -> bool, present: Option<string>)
    requires CookieStage(h, cookies, expired).Ok? && |cookies| > 0 && |h| > 0 && PresentCookie(h) == present
    ensures Assoc.Get(CookieStage(h, cookies, expired).value, "cookie") == Some(Str(CookieLine(LiveCookies(cookies, expired), present)))
  {
  }

  /** Without a cookie header of its own, the cookie header the cookies are joined with is the preset one. */
  lemma ExistingCookie(h1: Assoc.Dict<Field>, auth: Option<Auth>, headers: Option<Assoc.Dict<string>>)
    requires !Assoc.HasKey(h1, "cookie")
    ensures PresentCookie(CallerStage(AuthStage(h1, auth), headers)) == PresetCookie(auth, headers)
  {
    LaterStages(h1, auth, headers, "cookie");
  }

  /** `Finish` succeeds when the gzip and cookie stages do. */
  lemma FinishOk(h0: Assoc.Dict<Field>, body: Option<Body>, auth: Option<Auth>, headers: Option<Assoc.Dict<string>>,
                 cookies: seq<Cookie>, expired: Cookie -> bool, useGzip: bool, mode: Check)
    requires GzipStage(h0, useGzip).Ok? && !AuthRaises(auth, mode)
    requires CookieStage(CallerStage(AuthStage(GzipStage(h0, useGzip).value, auth), headers), cookies, expired).Ok?
    ensures Finish(h0, body, auth, headers, cookies, expired, useGzip, mode).Ok?
  {
  }

  /**
   * `curl(..., auth=CURLAuth(user, password, force=True))` without headers:
   * as written the request is never built, reading `auth.headers` raises
   * TypeError; as intended it is built.
   */
  lemma ForcedAuthRaises(m: Method, data: Option<Body>, user: string, password: string, headers: Option<Assoc.Dict<string>>,
                         cookies: seq<Cookie>, expired: Cookie -> bool, useGzip: bool)
    requires !m.Unknown?
    requires (m == POST || m == PUT) && data.Some? ==> data.value.Text? || data.value.Raw?
    ensures BuildRequest(m, data, Some(Auth(user, password, true, None)), headers, cookies, expired, useGzip, Written) == Err(TypeError)
    ensures BuildRequest(m, data, Some(Auth(user, password, true, None)), headers, cookies, expired, useGzip, Intended).Ok?
  {
    var auth := Some(Auth(user, password, true, None));
    RequestBuilt(m, data, auth, headers, cookies, expired, useGzip, Written);
    RequestBuilt(m, data, auth, headers, cookies, expired, useGzip, Intended);
  }

  /**
   * As intended, forced credentials without headers send the `Authorization`
   * header with the Basic token, unless the caller sets that header.
   */
  lemma ForcedAuthSent(m: Method, data: Option<Body>, user: string, password: string, headers: Option<Assoc.Dict<string>>,
                       cookies: seq<Cookie>, expired: Cookie -> bool, useGzip: bool)
    requires !m.Unknown?
    requires (m == POST || m == PUT) && data.Some? ==> data.value.Text? || data.value.Raw?
    requires headers.None? || !Assoc.HasKey(headers.value, "Authorization")
    ensures var r := BuildRequest(m, data, Some(Auth(user, password, true, None)), headers, cookies, expired, useGzip, Intended);
            r.Ok? && Assoc.Get(r.value.headers, "Authorization") == Some(Str("Basic " + Token(Auth(user, password, true, None))))
  {
    var a := Auth(user, password, true, None);
    RequestBuilt(m, data, Some(a), headers, cookies, expired, useGzip, Intended);
    BuildIsFinish(m, data, Some(a), headers, cookies, expired, useGzip, Intended);
    var h0 := BodyStage(m, data).value.0;
    FinishIs(h0, BodyStage(m, data).value.1, Some(a), headers, cookies, expired, useGzip, Intended);
    var h1 := GzipStage(h0, useGzip).value;
    AuthStageGet(h1, Some(a), "Authorization");
    if headers.Some? {
      CallerStageGet(AuthStage(h1, Some(a)), headers, "Authorization");
    }
  }

  /** Cookies are dropped when no other header is sent. */
  lemma CookiesNeedAnotherHeader(m: Method, cookies: seq<Cookie>, expired: Cookie -> bool, mode: Check)
    requires !m.Unknown?
    ensures BuildRequest(m, None, None, None, cookies, expired, false, mode) == Ok(Request([], None))
  {
  }

}
