/** The credential handling of internal/client/client.go: parseCookie (lines 66-75), which the
    constructor applies to the configured cookie string (line 39), and the decision in GetStream
    (lines 49-63) to attach an Authorization header and a cookie to each request. The HTTP
    client itself, its timeouts, retries and transport are outside the model. */
module Client {
  import opened Wrappers

  /** unicode.IsSpace, the test strings.TrimSpace trims by: the Latin-1 spaces TAB, LF, VT, FF,
      CR, SPACE, NEL and NBSP, and the other characters Unicode classes as White_Space. */
  predicate IsSpace(c: char) {
    c == '\t' || c == '\n' || c == '\U{000B}' || c == '\U{000C}' || c == '\r' || c == ' '
    || c == '\U{0085}' || c == '\U{00A0}' || c == '\U{1680}' || ('\U{2000}' <= c <= '\U{200A}')
    || c == '\U{2028}' || c == '\U{2029}' || c == '\U{202F}' || c == '\U{205F}' || c == '\U{3000}'
  }

  predicate AllSpace(s: string) {
    forall i :: 0 <= i < |s| ==> IsSpace(s[i])
  }

  /** Neither begins nor ends with white space. */
  predicate Trimmed(s: string) {
    s == [] || (!IsSpace(s[0]) && !IsSpace(s[|s| - 1]))
  }

  /** s without its leading white space. */
  function TrimLeft(s: string): (r: string)
    ensures |r| <= |s| && r == s[|s| - |r|..]
    ensures AllSpace(s[..|s| - |r|])
    ensures r == [] || !IsSpace(r[0])
    decreases |s|
  {
    if s != [] && IsSpace(s[0]) then
      var r := TrimLeft(s[1..]);
      assert s[..|s| - |r|] == [s[0]] + s[1..][..|s| - 1 - |r|];
      r
    else s
  }

  /** s without its trailing white space. */
  function TrimRight(s: string): (r: string)
    ensures |r| <= |s| && r == s[..|r|]
    ensures AllSpace(s[|r|..])
    ensures r == [] || !IsSpace(r[|r| - 1])
    decreases |s|
  {
    if s != [] && IsSpace(s[|s| - 1]) then
      var r := TrimRight(s[..|s| - 1]);
      assert s[|r|..] == s[..|s| - 1][|r|..] + [s[|s| - 1]];
      r
    else s
  }

  /** strings.TrimSpace. */
  function TrimSpace(s: string): (r: string)
    ensures Trimmed(r)
  {
    TrimRight(TrimLeft(s))
  }

  /** Trimming removes exactly the white space around the text: for text that is itself
      trimmed, padding it on either side with white space and trimming gives it back. */
  lemma TrimSpaceOfPadded(a: string, t: string, b: string)
    requires AllSpace(a) && AllSpace(b) && Trimmed(t)
    ensures TrimSpace(a + t + b) == t
  {
    if t == [] {
      assert a + t + b == a + b;
      LeftOfSpaces(a + b);
    } else {
      assert a + t + b == a + (t + b);
      LeftOfPadded(a, t + b);
      RightOfPadded(t, b);
    }
  }

  /** White space alone trims to nothing. */
  lemma {:induction false} LeftOfSpaces(u: string)
    requires AllSpace(u)
    ensures TrimLeft(u) == []
    decreases |u|
  {
    if u != [] {
      LeftOfSpaces(u[1..]);
    }
  }

  lemma {:induction false} LeftOfPadded(a: string, u: string)
    requires AllSpace(a) && u != [] && !IsSpace(u[0])
    ensures TrimLeft(a + u) == u
    decreases |a|
  {
    var s := a + u;
    if a != [] {
      assert s[0] == a[0] && IsSpace(a[0]);
      assert s[1..] == a[1..] + u;
      assert TrimLeft(s) == TrimLeft(s[1..]);
      LeftOfPadded(a[1..], u);
    } else {
      assert s == u;
    }
  }

  lemma {:induction false} RightOfPadded(t: string, b: string)
    requires AllSpace(b) && Trimmed(t)
    ensures TrimRight(t + b) == t
    decreases |b|
  {
    if b != [] {
      var s := t + b;
      assert s[..|s| - 1] == t + b[..|b| - 1];
      RightOfPadded(t, b[..|b| - 1]);
    } else {
      assert t + b == t;
    }
  }

  /** The position of the first occurrence of c in s. */
  function IndexOf(s: string, c: char): (k: nat)
    requires c in s
    ensures k < |s| && s[k] == c && c !in s[..k]
  {
    if s[0] == c then 0
    else
      var k := 1 + IndexOf(s[1..], c);
      assert s[..k] == [s[0]] + s[1..][..k - 1];
      k
  }

  /** The cookie name used when the configured string has no '='. */
  const DefaultCookieName: string := "SessaoId"

  /** parseCookie: the empty string gives an empty name and value; a string without '=' is a
      bare value for the default name, kept untrimmed; otherwise the string is split at its
      first '=' and both sides are trimmed. */
  function ParseCookie(s: string): (nv: (string, string))
    ensures s == "" ==> nv == ("", "")
    ensures s != "" && '=' !in s ==> nv == (DefaultCookieName, s)
    ensures '=' in s ==> Trimmed(nv.0) && Trimmed(nv.1)
  {
    if s == "" then ("", "")
    else if '=' in s then
      var k := IndexOf(s, '=');
      (TrimSpace(s[..k]), TrimSpace(s[k + 1..]))
    else (DefaultCookieName, s)
  }

  /** The name is the trimmed text before the first '=' and the value the trimmed text after
      it, '=' included. */
  lemma SplitsAtFirstEquals(name: string, value: string)
    requires '=' !in name
    ensures ParseCookie(name + "=" + value) == (TrimSpace(name), TrimSpace(value))
  {
    var s := name + "=" + value;
    assert s[|name|] == '=';
    var k := IndexOf(s, '=');
    assert k == |name|;
    assert s[..k] == name && s[k + 1..] == value;
  }

  /** A configured "name=value" with a name free of '=' and no white space around either part
      is read back exactly. */
  lemma ParseCookieInverse(name: string, value: string)
    requires '=' !in name && Trimmed(name) && Trimmed(value)
    ensures ParseCookie(name + "=" + value) == (name, value)
  {
    SplitsAtFirstEquals(name, value);
    assert TrimLeft(name) == name && TrimLeft(value) == value;
  }

  /** The credentials a client keeps: the token as configured and the parsed cookie. */
  datatype Credentials = Credentials(authToken: string, cookieName: string, cookieValue: string)

  datatype Cookie = Cookie(name: string, value: string)

  /** What GetStream adds to a request. */
  datatype Attached = Attached(authorization: Option<string>, cookie: Option<Cookie>)

  /** NewRestyClient's handling of the configured token and cookie string: the token is kept
      verbatim, untrimmed; an empty cookie string leaves no cookie; a bare value gets the
      default name, untrimmed; a "name=value" string is stored without white space around
      either part. */
  function NewCredentials(token: string, cookie: string): (c: Credentials)
    ensures c.authToken == token
    ensures cookie == "" ==> c.cookieName == "" && c.cookieValue == ""
    ensures cookie != "" && '=' !in cookie ==>
      c.cookieName == DefaultCookieName && c.cookieValue == cookie
    ensures '=' in cookie ==> Trimmed(c.cookieName) && Trimmed(c.cookieValue)
  {
    var (name, value) := ParseCookie(cookie);
    Credentials(token, name, value)
  }

  /** GetStream: the Authorization header, set verbatim to the token, is attached exactly when
      the token is not empty; the cookie exactly when its value is not empty. */
  function Attach(c: Credentials): (a: Attached)
    ensures a.authorization.Some? <==> c.authToken != ""
    ensures a.authorization.Some? ==> a.authorization.value == c.authToken
    ensures a.cookie.Some? <==> c.cookieValue != ""
    ensures a.cookie.Some? ==> a.cookie.value == Cookie(c.cookieName, c.cookieValue)
  {
    Attached(
      if c.authToken != "" then Some(c.authToken) else None,
      if c.cookieValue != "" then Some(Cookie(c.cookieName, c.cookieValue)) else None)
  }

  /** From configuration to request: a cookie goes out exactly when the configured string is a
      non-empty bare value, or has something besides white space after its first '='. In
      particular "name=" or "name=  " sends no cookie at all. */
  lemma CookieSentIff(token: string, name: string, value: string)
    requires '=' !in name
    ensures Attach(NewCredentials(token, name + "=" + value)).cookie.Some? <==>
      TrimSpace(value) != ""
    ensures AllSpace(value) ==> Attach(NewCredentials(token, name + "=" + value)).cookie.None?
  {
    SplitsAtFirstEquals(name, value);
    if AllSpace(value) {
      LeftOfSpaces(value);
    }
  }

  /** A configured string without '=' is sent as the value of the default cookie name. */
  lemma BareValueUsesDefaultName(token: string, cookie: string)
    requires cookie != "" && '=' !in cookie
    ensures Attach(NewCredentials(token, cookie)).cookie == Some(Cookie(DefaultCookieName, cookie))
  {
  }
}
