/**
 * The "Basic" HTTP authentication value the gallery attaches to every mutating request:
 * "Basic " followed by btoa(token + ":"), i.e. the user-id ":" password form of
 * section 2 of RFC 7617 with the login token as user-id and an empty password.
 */
module BasicAuth {
  import opened Wrappers
  import opened Base64

  /** True when every character is a single byte (code point at most U+00FF). */
  predicate IsLatin1(s: string) {
    forall i :: 0 <= i < |s| ==> s[i] as int < 256
  }

  lemma Latin1Append(s: string, t: string)
    ensures IsLatin1(s + t) <==> IsLatin1(s) && IsLatin1(t)
  {
    if !IsLatin1(s) {
      var i :| 0 <= i < |s| && s[i] as int >= 256;
      assert (s + t)[i] == s[i];
    } else if !IsLatin1(t) {
      var i :| 0 <= i < |t| && t[i] as int >= 256;
      assert (s + t)[|s| + i] == t[i];
    }
  }

  /** The bytes of a Latin-1 string, or None when some character does not fit a byte. */
  function Latin1Bytes(s: string): (r: Option<seq<Byte>>)
    ensures r.Some? <==> IsLatin1(s)
    ensures r.Some? ==> |r.value| == |s| && forall i :: 0 <= i < |s| ==> r.value[i] == s[i] as int
    decreases |s|
  {
    if |s| == 0 then Some([])
    else if s[0] as int >= 256 then None
    else
      match Latin1Bytes(s[1..])
      case None => None
      case Some(rest) => Some([s[0] as int] + rest)
  }

  /** The string whose characters are the given bytes (the inverse of Latin1Bytes). */
  function Latin1String(bs: seq<Byte>): (s: string)
    ensures |s| == |bs| && IsLatin1(s)
    ensures Latin1Bytes(s) == Some(bs)
  {
    var s := seq(|bs|, i requires 0 <= i < |bs| => bs[i] as char);
    assert Latin1Bytes(s).value == bs;
    s
  }

  /**
   * The browser's btoa(): Base64 of the string's bytes. None stands for the
   * InvalidCharacterError it throws on a character above U+00FF.
   */
  function Btoa(s: string): (r: Option<string>)
    ensures r.Some? <==> IsLatin1(s)
    ensures r.Some? ==> |r.value| == 4 * ((|s| + 2) / 3)
  {
    match Latin1Bytes(s)
    case None => None
    case Some(bs) => Some(Encode(bs))
  }

  /** The browser's atob() restricted to canonical input: the partner of Btoa. */
  function Atob(s: string): (r: Option<string>)
  {
    match Decode(s)
    case None => None
    case Some(bs) => Some(Latin1String(bs))
  }

  lemma AtobBtoa(s: string)
    requires IsLatin1(s)
    ensures Atob(Btoa(s).value) == Some(s)
  {
    var bs := Latin1Bytes(s).value;
    DecodeEncode(bs);
    assert Latin1String(bs) == s;
  }

  const Scheme: string := "Basic "

  /** The Authorization header value built from the login token; None when btoa throws. */
  function AuthorizationValue(token: string): (r: Option<string>)
    ensures r.Some? <==> IsLatin1(token)
    ensures r.Some? ==> |r.value| > |Scheme| && r.value[..|Scheme|] == Scheme
  {
    Latin1Append(token, ":");
    match Btoa(token + ":")
    case None => None
    case Some(b) => Some(Scheme + b)
  }

  datatype Credentials = Credentials(userId: string, password: string)

  /** Splits "user-id:password" at the first colon (section 2 of RFC 7617). */
  function SplitAtColon(s: string): (r: Option<Credentials>)
    ensures r.Some? <==> ':' in s
    ensures r.Some? ==> ':' !in r.value.userId && s == r.value.userId + ":" + r.value.password
    decreases |s|
  {
    if |s| == 0 then None
    else if s[0] == ':' then Some(Credentials("", s[1..]))
    else
      match SplitAtColon(s[1..])
      case None => None
      case Some(c) => Some(Credentials([s[0]] + c.userId, c.password))
  }

  /** What a server reads from a "Basic" Authorization value. */
  function ParseAuthorization(v: string): (r: Option<Credentials>)
  {
    if |v| < |Scheme| || v[..|Scheme|] != Scheme then None
    else
      match Atob(v[|Scheme|..])
      case None => None
      case Some(userPass) => SplitAtColon(userPass)
  }

  lemma {:induction false} SplitAfterUserId(userId: string, password: string)
    requires ':' !in userId
    ensures SplitAtColon(userId + ":" + password) == Some(Credentials(userId, password))
    decreases |userId|
  {
    var s := userId + ":" + password;
    if |userId| == 0 {
      assert s == ":" + password;
      assert s[1..] == password;
    } else {
      assert s[0] == userId[0];
      assert s[1..] == userId[1..] + ":" + password;
      SplitAfterUserId(userId[1..], password);
      assert [userId[0]] + userId[1..] == userId;
    }
  }

  /**
   * Whatever the token, a server that parses the header gets the first-colon split
   * of token + ":": a colon inside the token moves the rest of it into the password.
   */
  lemma ParseAuthorizationOfToken(token: string)
    requires IsLatin1(token)
    ensures ParseAuthorization(AuthorizationValue(token).value) == SplitAtColon(token + ":")
  {
    var v := AuthorizationValue(token).value;
    var b := Btoa(token + ":").value;
    assert v == Scheme + b;
    assert v[|Scheme|..] == b;
    Latin1Append(token, ":");
    AtobBtoa(token + ":");
  }

  /** The token "a:b" reads back as user-id "a" and password "b:". */
  lemma ColonInTokenSplits()
    ensures ParseAuthorization(AuthorizationValue("a:b").value) == Some(Credentials("a", "b:"))
  {
    assert IsLatin1("a:b");
    ParseAuthorizationOfToken("a:b");
    SplitAfterUserId("a", "b:");
    assert "a" + ":" + "b:" == "a:b" + ":";
  }

  /**
   * A server that parses the header recovers the token as user-id and an empty
   * password, provided the token is Latin-1 and free of colons (RFC 7617 forbids
   * a colon in the user-id).
   */
  lemma ParseAuthorizationValue(token: string)
    requires IsLatin1(token) && ':' !in token
    ensures ParseAuthorization(AuthorizationValue(token).value) == Some(Credentials(token, ""))
  {
    ParseAuthorizationOfToken(token);
    SplitAfterUserId(token, "");
    assert token + ":" + "" == token + ":";
  }
}
