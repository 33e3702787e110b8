/** The client-side helpers of the dashboard script: the CSRF guard of every AJAX
    request, the cookie reader behind it, and the error toast of "check now". */
module Dashboard {
  import opened Wrappers

  /** The JavaScript values these helpers pass around. */
  datatype JsValue = Undefined | Null | Str(s: string)

  /** JavaScript truthiness, for the values above: a non-empty string. */
  predicate Truthy(v: JsValue) {
    v.Str? && v.s != ""
  }

  /** `a || b`. */
  function Or(a: JsValue, b: JsValue): JsValue {
    if Truthy(a) then a else b
  }

  /** The alternatives of the safe-method pattern. */
  const SafeMethods: seq<string> := ["GET", "HEAD", "OPTIONS", "TRACE"]

  /** Whether one of `alternatives` matches all of `s`, anchored at both ends. */
  function MatchesWhole(s: string, alternatives: seq<string>): (r: bool)
    ensures r <==> s in alternatives
    decreases |alternatives|
  {
    if |alternatives| == 0 then false
    else
      assert alternatives == [alternatives[0]] + alternatives[1..];
      assert alternatives[0] <= s && |s| == |alternatives[0]| <==> s == alternatives[0];
      (alternatives[0] <= s && |s| == |alternatives[0]|) || MatchesWhole(s, alternatives[1..])
  }

  /** `csrfSafeMethod`: the pattern `^(GET|HEAD|OPTIONS|TRACE)$`. */
  function CsrfSafeMethod(verb: string): (r: bool)
    ensures r <==> verb == "GET" || verb == "HEAD" || verb == "OPTIONS" || verb == "TRACE"
  {
    MatchesWhole(verb, SafeMethods)
  }

  /** The match is anchored and case-sensitive. */
  lemma SafeMethodsAreExact()
    ensures !CsrfSafeMethod("get") && !CsrfSafeMethod("GETS") && !CsrfSafeMethod(" GET")
  {
    assert "get"[0] != "GET"[0];
    assert |"GETS"| == 4 && |" GET"| == 4;
  }

  /** The methods that change state all need the token. */
  lemma UnsafeMethodsNeedToken()
    ensures !CsrfSafeMethod("POST") && !CsrfSafeMethod("PUT") && !CsrfSafeMethod("PATCH") && !CsrfSafeMethod("DELETE")
  {
    assert "POST"[0] != "GET"[0] && "POST"[0] != "HEAD"[0] && "POST"[0] != "TRACE"[0];
    assert "PUT"[0] != "OPTIONS"[0] && "PATCH"[0] != "OPTIONS"[0] && "DELETE"[0] != "OPTIONS"[0];
  }

  /** The `beforeSend` hook: the `X-CSRFToken` header it sets, if any. */
  function CsrfHeader(verb: string, crossDomain: bool, token: JsValue): (h: Option<(string, JsValue)>)
    ensures h.Some? <==> verb !in SafeMethods && !crossDomain
    ensures h.Some? ==> h.value == ("X-CSRFToken", token)
  {
    if !CsrfSafeMethod(verb) && !crossDomain then Some(("X-CSRFToken", token)) else None
  }

  /** The first truthy value of a `||` chain, or its last value when none is truthy. */
  function FirstTruthy(vs: seq<JsValue>): (r: JsValue)
    requires |vs| > 0
    ensures r in vs
    ensures Truthy(r) <==> exists i :: 0 <= i < |vs| && Truthy(vs[i])
    ensures Truthy(r) ==> exists i :: 0 <= i < |vs| && vs[i] == r && forall j :: 0 <= j < i ==> !Truthy(vs[j])
    ensures !Truthy(r) ==> r == vs[|vs| - 1]
    decreases |vs|
  {
    if |vs| == 1 || Truthy(vs[0]) then vs[0]
    else
      var r := FirstTruthy(vs[1..]);
      assert forall i :: 0 <= i < |vs| - 1 ==> vs[1..][i] == vs[i + 1];
      r
  }

  /** A JavaScript space: the characters `String.prototype.trim` removes. */
  predicate IsJsWhitespace(c: char) {
    || c == '\t' || c == '\n' || c == '\U{000B}' || c == '\U{000C}' || c == '\r' || c == ' '
    || c == '\U{00A0}' || c == '\U{1680}' || ('\U{2000}' <= c <= '\U{200A}')
    || c == '\U{2028}' || c == '\U{2029}' || c == '\U{202F}' || c == '\U{205F}'
    || c == '\U{3000}' || c == '\U{FEFF}'
  }

  /** `s` without the characters satisfying `p` at its front. */
  function DropLeading(s: string, p: char -> bool): (r: string)
    ensures |r| <= |s| && r == s[|s| - |r|..]
    decreases |s|
  {
    if |s| > 0 && p(s[0]) then DropLeading(s[1..], p) else s
  }

  /** `s` without the characters satisfying `p` at its back. */
  function DropTrailing(s: string, p: char -> bool): (r: string)
    ensures r <= s
    decreases |s|
  {
    if |s| > 0 && p(s[|s| - 1]) then DropTrailing(s[..|s| - 1], p) else s
  }

  /** `DropLeading` removes only characters satisfying `p`, and all of those at the front. */
  lemma {:induction false} DropLeadingRemovesOnlyMatches(s: string, p: char -> bool)
    ensures var r := DropLeading(s, p);
      && (forall i :: 0 <= i < |s| - |r| ==> p(s[i]))
      && (|r| > 0 ==> !p(r[0]))
    decreases |s|
  {
    if |s| > 0 && p(s[0]) {
      DropLeadingRemovesOnlyMatches(s[1..], p);
      var r := DropLeading(s[1..], p);
      assert DropLeading(s, p) == r;
      forall i | 0 <= i < |s| - |r|
        ensures p(s[i])
      {
        if i > 0 {
          assert s[i] == s[1..][i - 1];
        }
      }
    }
  }

  /** `DropTrailing` removes only characters satisfying `p`, and all of those at the back. */
  lemma {:induction false} DropTrailingRemovesOnlyMatches(s: string, p: char -> bool)
    ensures var r := DropTrailing(s, p);
      && (forall i :: |r| <= i < |s| ==> p(s[i]))
      && (|r| > 0 ==> !p(r[|r| - 1]))
    decreases |s|
  {
    if |s| > 0 && p(s[|s| - 1]) {
      var t := s[..|s| - 1];
      DropTrailingRemovesOnlyMatches(t, p);
      var r := DropTrailing(t, p);
      assert DropTrailing(s, p) == r;
      forall i | |r| <= i < |s|
        ensures p(s[i])
      {
        if i < |s| - 1 {
          assert s[i] == t[i];
        }
      }
    }
  }

  /** `s` without its leading spaces. */
  function TrimStart(s: string): (r: string)
    ensures |r| <= |s| && r == s[|s| - |r|..]
  {
    DropLeading(s, IsJsWhitespace)
  }

  /** `s` without its trailing spaces. */
  function TrimEnd(s: string): (r: string)
    ensures r <= s
  {
    DropTrailing(s, IsJsWhitespace)
  }

  /** `s.trim()`. */
  function Trim(s: string): (r: string)
    ensures |r| <= |s|
  {
    TrimEnd(TrimStart(s))
  }

  /** Trimming at the front removes spaces only, and all of them. */
  lemma TrimStartRemovesLeadingSpaces(s: string)
    ensures var r := TrimStart(s);
      && (forall i :: 0 <= i < |s| - |r| ==> IsJsWhitespace(s[i]))
      && (|r| > 0 ==> !IsJsWhitespace(r[0]))
  {
    DropLeadingRemovesOnlyMatches(s, IsJsWhitespace);
  }

  /** Trimming at the back removes spaces only, and all of them. */
  lemma TrimEndRemovesTrailingSpaces(s: string)
    ensures var r := TrimEnd(s);
      && (forall i :: |r| <= i < |s| ==> IsJsWhitespace(s[i]))
      && (|r| > 0 ==> !IsJsWhitespace(r[|r| - 1]))
  {
    DropTrailingRemovesOnlyMatches(s, IsJsWhitespace);
  }

  /** A trimmed string neither starts nor ends with a space, and what was cut off on
      either side was spaces. */
  lemma {:induction false} TrimRemovesOuterSpaces(s: string)
    ensures var t := TrimStart(s); var r := Trim(s);
      && (forall i :: 0 <= i < |s| - |t| ==> IsJsWhitespace(s[i]))
      && (forall i :: |r| <= i < |t| ==> IsJsWhitespace(t[i]))
      && (|r| > 0 ==> !IsJsWhitespace(r[0]) && !IsJsWhitespace(r[|r| - 1]))
  {
    var t := TrimStart(s);
    TrimStartRemovesLeadingSpaces(s);
    TrimEndRemovesTrailingSpaces(t);
    var r := TrimEnd(t);
    assert Trim(s) == r;
    if |r| > 0 {
      assert r[0] == t[0];
    }
  }

  /** The position `substring` uses for an argument: at least 0, at most the length. */
  function ClampIndex(i: int, length: nat): (r: nat)
    ensures r <= length
    ensures 0 <= i <= length ==> r == i
  {
    if i < 0 then 0 else if i > length then length else i
  }

  /** `s.substring(start, end)`: both positions clamped, and swapped when reversed. */
  function Substring(s: string, start: int, end: int): (r: string)
    ensures 0 <= start <= end <= |s| ==> r == s[start..end]
    ensures 0 <= start && |s| <= end ==> |r| == if start <= |s| then |s| - start else 0
  {
    var a := ClampIndex(start, |s|);
    var b := ClampIndex(end, |s|);
    if a <= b then s[a..b] else s[b..a]
  }

  /** The test `getCookie` applies to a trimmed entry. */
  predicate NameMatches(cookie: string, name: string) {
    Substring(cookie, 0, |name| + 1) == name + "="
  }

  /** An entry matches exactly when it starts with the name and an equals sign, so an
      entry whose name merely begins with `name` does not. */
  lemma NameMatchesIsPrefix(cookie: string, name: string)
    ensures NameMatches(cookie, name) <==> name + "=" <= cookie
  {
    if |cookie| < |name| + 1 {
      assert Substring(cookie, 0, |name| + 1) == cookie;
    }
  }

  /** The first occurrence of `c` in `s`. */
  function IndexOf(s: string, c: char): (i: nat)
    requires c in s
    ensures i < |s| && s[i] == c && c !in s[..i]
    decreases |s|
  {
    if s[0] == c then 0 else 1 + IndexOf(s[1..], c)
  }

  /** `s.split(sep)` for a one-character separator. */
  function Split(s: string, sep: char): (parts: seq<string>)
    ensures |parts| > 0
    ensures forall p :: p in parts ==> sep !in p
    decreases |s|
  {
    if sep !in s then [s]
    else
      var i := IndexOf(s, sep);
      [s[..i]] + Split(s[i + 1..], sep)
  }

  /** `parts.join(sep)`, the inverse of `Split`. */
  function Join(parts: seq<string>, sep: char): string
    requires |parts| > 0
    decreases |parts|
  {
    if |parts| == 1 then parts[0] else parts[0] + [sep] + Join(parts[1..], sep)
  }

  /** Splitting loses nothing: joining the pieces gives the string back. */
  lemma {:induction false} JoinSplit(s: string, sep: char)
    ensures Join(Split(s, sep), sep) == s
    decreases |s|
  {
    if sep in s {
      var i := IndexOf(s, sep);
      var rest := Split(s[i + 1..], sep);
      var parts := [s[..i]] + rest;
      assert Split(s, sep) == parts;
      assert parts[0] == s[..i] && parts[1..] == rest;
      JoinSplit(s[i + 1..], sep);
      assert Join(parts, sep) == s[..i] + [sep] + s[i + 1..];
      assert s == s[..i] + [sep] + s[i + 1..];
    }
  }

  /** Pieces free of the separator come back from a split of their join. */
  lemma {:induction false} SplitJoin(parts: seq<string>, sep: char)
    requires |parts| > 0
    requires forall p :: p in parts ==> sep !in p
    ensures Split(Join(parts, sep), sep) == parts
    decreases |parts|
  {
    if |parts| > 1 {
      var s := Join(parts, sep);
      assert parts[0] in parts;
      assert s[..|parts[0]|] == parts[0];
      assert s[|parts[0]|] == sep;
      assert sep in s;
      assert IndexOf(s, sep) == |parts[0]|;
      assert s[|parts[0]| + 1..] == Join(parts[1..], sep);
      SplitJoin(parts[1..], sep);
    }
  }

  /** The value of the first entry that matches `name`, decoded by `decode`. */
  function FirstCookie(entries: seq<string>, name: string, decode: string -> string): Option<string>
    decreases |entries|
  {
    if |entries| == 0 then None
    else
      var cookie := Trim(entries[0]);
      if EntryMatches(entries[0], name) then Some(decode(Substring(cookie, |name| + 1, |cookie|)))
      else FirstCookie(entries[1..], name, decode)
  }

  /** What `getCookie(name)` returns for the cookie string `documentCookie`, `None` being
      `null`; `decodeURIComponent` is the parameter `decode`. */
  function CookieValue(documentCookie: string, name: string, decode: string -> string): Option<string> {
    if documentCookie == "" then None else FirstCookie(Split(documentCookie, ';'), name, decode)
  }

  /** The test applied to an untrimmed entry. */
  predicate EntryMatches(entry: string, name: string) {
    NameMatches(Trim(entry), name)
  }

  /** The position of the first entry that matches `name`, or the number of entries. */
  function MatchIndex(entries: seq<string>, name: string): (k: nat)
    ensures k <= |entries|
    decreases |entries|
  {
    if |entries| == 0 || EntryMatches(entries[0], name) then 0
    else 1 + MatchIndex(entries[1..], name)
  }

  /** The entry `MatchIndex` finds, if any, matches. */
  lemma {:induction false} MatchIndexMatches(entries: seq<string>, name: string)
    ensures var k := MatchIndex(entries, name); k < |entries| ==> EntryMatches(entries[k], name)
    decreases |entries|
  {
    if |entries| > 0 && !EntryMatches(entries[0], name) {
      MatchIndexMatches(entries[1..], name);
      var k := MatchIndex(entries[1..], name);
      assert k < |entries| - 1 ==> entries[1..][k] == entries[k + 1];
    }
  }

  /** No entry before the one `MatchIndex` finds matches. */
  lemma {:induction false} NoMatchBefore(entries: seq<string>, name: string, j: nat)
    requires j < MatchIndex(entries, name)
    ensures !EntryMatches(entries[j], name)
    decreases j
  {
    assert !EntryMatches(entries[0], name);
    if j > 0 {
      assert MatchIndex(entries, name) == 1 + MatchIndex(entries[1..], name);
      NoMatchBefore(entries[1..], name, j - 1);
      assert entries[1..][j - 1] == entries[j];
    }
  }

  /** The lookup yields the decoded remainder, after `name=`, of the first entry that
      matches, and nothing when no entry matches. */
  lemma {:induction false} FirstCookieIsFirstMatch(entries: seq<string>, name: string, decode: string -> string)
    ensures var k := MatchIndex(entries, name);
      k < |entries| ==> name + "=" <= Trim(entries[k])
    ensures var k := MatchIndex(entries, name);
      FirstCookie(entries, name, decode)
        == if k == |entries| then None else Some(decode(Trim(entries[k])[|name| + 1..]))
    decreases |entries|
  {
    if |entries| > 0 {
      var cookie := Trim(entries[0]);
      NameMatchesIsPrefix(cookie, name);
      MatchIndexMatches(entries, name);
      var k := MatchIndex(entries, name);
      if k < |entries| {
        NameMatchesIsPrefix(Trim(entries[k]), name);
      }
      if EntryMatches(entries[0], name) {
        assert Substring(cookie, |name| + 1, |cookie|) == cookie[|name| + 1..];
      } else {
        FirstCookieIsFirstMatch(entries[1..], name, decode);
        assert k == 1 + MatchIndex(entries[1..], name);
        assert FirstCookie(entries, name, decode) == FirstCookie(entries[1..], name, decode);
        assert k < |entries| ==> entries[1..][k - 1] == entries[k];
      }
    }
  }

  /** `getCookie`: scans the `;`-separated entries and stops at the first match. */
  method GetCookie(documentCookie: string, name: string, decode: string -> string) returns (cookieValue: Option<string>)
    ensures cookieValue == CookieValue(documentCookie, name, decode)
  {
    cookieValue := None;
    if documentCookie != "" {
      var cookies := Split(documentCookie, ';');
      var i := 0;
      while i < |cookies|
        invariant 0 <= i <= |cookies|
        invariant cookieValue == None
        invariant FirstCookie(cookies[i..], name, decode) == FirstCookie(cookies, name, decode)
      {
        var cookie := Trim(cookies[i]);
        assert cookies[i..][0] == cookies[i] && cookies[i..][1..] == cookies[i + 1..];
        if Substring(cookie, 0, |name| + 1) == name + "=" {
          cookieValue := Some(decode(Substring(cookie, |name| + 1, |cookie|)));
          break;
        }
        i := i + 1;
      }
    }
  }

  /** The cookie lookup as a JavaScript value. */
  function CookieJs(documentCookie: string, name: string, decode: string -> string): JsValue {
    match CookieValue(documentCookie, name, decode)
    case None => Null
    case Some(v) => Str(v)
  }

  /** `getCSRFToken`: the hidden form field, else the meta tag, else the `csrftoken`
      cookie. */
  function GetCsrfToken(formField: JsValue, metaContent: JsValue, documentCookie: string, decode: string -> string): (r: JsValue)
    ensures r == FirstTruthy([formField, metaContent, CookieJs(documentCookie, "csrftoken", decode)])
  {
    Or(Or(formField, metaContent), CookieJs(documentCookie, "csrftoken", decode))
  }

  const UnavailableText: string := "Health check service is temporarily unavailable"
  const InternalErrorText: string := "An internal error occurred. Please try again later."
  const NetworkErrorText: string := "Network error. Please check your connection."
  const GenericErrorText: string := "Error checking URL"

  /** The error toast of `checkNow`. `responseJson` is `xhr.responseJSON`: absent, or a
      body whose `error` field is the given value. */
  function CheckNowErrorToast(status: int, responseJson: Option<JsValue>): (message: JsValue)
    ensures Truthy(message)
    ensures status == 500 ==> message == Str(InternalErrorText)
    ensures status == 0 ==> message == Str(NetworkErrorText)
    ensures status != 0 && status != 500 && responseJson.Some? && Truthy(responseJson.value) ==>
      message == responseJson.value
    ensures status != 0 && status != 500 && !(responseJson.Some? && Truthy(responseJson.value)) ==>
      message == Str(if status == 503 then UnavailableText else GenericErrorText)
  {
    var serverError := match responseJson case None => Undefined case Some(e) => e;
    if status == 503 then Or(serverError, Str(UnavailableText))
    else if status == 500 then Str(InternalErrorText)
    else if status == 0 then Str(NetworkErrorText)
    else Or(serverError, Str(GenericErrorText))
  }
}
