/**
  `authorizeRequest`: the bearer-token check in front of the API routes.
  The token is the second piece of the `Authorization` header split on a
  single space, trimmed; no token is 401, a token other than the
  configured key (also when no key is configured) is 403, the key itself
  lets the request through.
*/
module Authorization {
  import opened Wrappers

  /** The status and body of the `Response` the check returns. */
  datatype Response = Response(status: int, body: string)

  const UNAUTHORIZED: Response := Response(401, "Unauthorized")
  const FORBIDDEN: Response := Response(403, "Forbidden")

  /**
    `s.split(sep)` with a one-character separator: the pieces between
    separators, empty ones included, so there is always at least one.
  */
  function Split(s: string, sep: char): (parts: seq<string>)
    ensures |parts| >= 1
    ensures forall k :: 0 <= k < |parts| ==> sep !in parts[k]
  {
    if s == [] then [[]]
    else
      var rest := Split(s[1..], sep);
      if s[0] == sep then [[]] + rest
      else [[s[0]] + rest[0]] + rest[1..]
  }

  /** `parts.join(sep)`: the inverse of `Split`. */
  function Join(parts: seq<string>, sep: char): string
    requires |parts| >= 1
  {
    if |parts| == 1 then parts[0] else parts[0] + [sep] + Join(parts[1..], sep)
  }

  /** Splitting and joining again gives back the header. */
  lemma {:induction false} JoinSplit(s: string, sep: char)
    ensures Join(Split(s, sep), sep) == s
  {
    if s != [] {
      JoinSplit(s[1..], sep);
      var rest := Split(s[1..], sep);
      if s[0] == sep {
        assert Split(s, sep)[1..] == rest;
      } else {
        var parts := Split(s, sep);
        if |rest| == 1 {
          assert parts == [[s[0]] + rest[0]];
        } else {
          assert parts[1..] == rest[1..];
          assert Join(rest, sep) == rest[0] + [sep] + Join(rest[1..], sep);
        }
        assert s == [s[0]] + s[1..];
      }
    }
  }

  /** Joining pieces that do not contain the separator and splitting again gives back the pieces. */
  lemma {:induction false} SplitJoin(parts: seq<string>, sep: char)
    requires |parts| >= 1
    requires forall k :: 0 <= k < |parts| ==> sep !in parts[k]
    ensures Split(Join(parts, sep), sep) == parts
    decreases |parts|, |parts[0]|
  {
    var head := parts[0];
    if head == [] {
      if |parts| > 1 {
        SplitJoin(parts[1..], sep);
        assert Join(parts, sep) == [sep] + Join(parts[1..], sep);
        assert ([sep] + Join(parts[1..], sep))[1..] == Join(parts[1..], sep);
        assert parts == [[]] + parts[1..];
      }
    } else {
      var shorter := [head[1..]] + parts[1..];
      assert shorter[1..] == parts[1..];
      forall k | 0 <= k < |shorter| ensures sep !in shorter[k] {
        if k == 0 { assert forall c :: c in head[1..] ==> c in head; }
      }
      SplitJoin(shorter, sep);
      var s := Join(parts, sep);
      assert s == [head[0]] + Join(shorter, sep) by {
        if |parts| == 1 {
          assert head == [head[0]] + head[1..];
        } else {
          assert head == [head[0]] + head[1..];
          assert Join(shorter, sep) == head[1..] + [sep] + Join(parts[1..], sep);
        }
      }
      assert s[1..] == Join(shorter, sep);
      assert head[0] in head;
      assert [head[0]] + head[1..] == head;
      assert parts == [head] + shorter[1..];
    }
  }

  /** The characters `String.prototype.trim` removes: white space and line terminators. */
  predicate IsSpace(c: char) {
    || c == '\t' || c == '\n' || c == '\U{000B}' || c == '\U{000C}' || c == '\r' || c == ' '
    || c == '\U{00A0}' || c == '\U{1680}' || ('\U{2000}' <= c <= '\U{200A}')
    || c == '\U{2028}' || c == '\U{2029}' || c == '\U{202F}' || c == '\U{205F}'
    || c == '\U{3000}' || c == '\U{FEFF}'
  }

  predicate AllSpace(s: string) {
    forall k :: 0 <= k < |s| ==> IsSpace(s[k])
  }

  /** How many white-space characters `s` starts with. */
  function LeadingSpaces(s: string): (n: nat)
    ensures n <= |s| && AllSpace(s[..n])
    ensures n < |s| ==> !IsSpace(s[n])
  {
    if s == [] || !IsSpace(s[0]) then 0
    else
      var n := 1 + LeadingSpaces(s[1..]);
      assert forall k :: 0 < k < n ==> s[..n][k] == s[1..][..n - 1][k - 1];
      n
  }

  /** How many white-space characters `s` ends with. */
  function TrailingSpaces(s: string): (n: nat)
    ensures n <= |s| && AllSpace(s[|s| - n..])
    ensures n < |s| ==> !IsSpace(s[|s| - n - 1])
  {
    if s == [] || !IsSpace(s[|s| - 1]) then 0
    else
      var n := 1 + TrailingSpaces(s[..|s| - 1]);
      assert s[|s| - n..] == s[..|s| - 1][|s| - n..] + [s[|s| - 1]];
      n
  }

  /**
    `s.trim()`: `s` without its leading and trailing white space. The result
    is a piece of `s`, neither of its ends is white space, and everything cut
    off is white space.
  */
  function Trim(s: string): (r: string)
    ensures exists i, j :: 0 <= i <= j <= |s| && r == s[i..j] && AllSpace(s[..i]) && AllSpace(s[j..])
    ensures r != [] ==> !IsSpace(r[0]) && !IsSpace(r[|r| - 1])
    ensures r == [] <==> AllSpace(s)
  {
    var i := LeadingSpaces(s);
    if i == |s| then
      assert s[..i] == s;
      assert s[i..i] == [] && s[i..] == [];
      []
    else
      var t := TrailingSpaces(s[i..]);
      var j := |s| - t;
      assert s[i..][0] == s[i] && !IsSpace(s[i]);
      assert i < j;
      assert s[i..][j - i..] == s[j..];
      assert s[i..j][0] == s[i] && s[i..j][j - i - 1] == s[i..][|s[i..]| - t - 1];
      assert AllSpace(s[..i]) && AllSpace(s[j..]);
      s[i..j]
  }

  lemma {:induction false} LeadingOfPadded(pad: string, rest: string)
    requires AllSpace(pad) && rest != [] && !IsSpace(rest[0])
    ensures LeadingSpaces(pad + rest) == |pad|
  {
    if pad != [] {
      LeadingOfPadded(pad[1..], rest);
      assert (pad + rest)[1..] == pad[1..] + rest;
    }
  }

  lemma {:induction false} TrailingOfPadded(rest: string, pad: string)
    requires AllSpace(pad) && rest != [] && !IsSpace(rest[|rest| - 1])
    ensures TrailingSpaces(rest + pad) == |pad|
  {
    if pad != [] {
      TrailingOfPadded(rest, pad[..|pad| - 1]);
      assert (rest + pad)[..|rest + pad| - 1] == rest + pad[..|pad| - 1];
    }
  }

  /** Trimming removes white-space padding and nothing else. */
  lemma TrimPadding(pad: string, core: string, pad2: string)
    requires AllSpace(pad) && AllSpace(pad2)
    requires core != [] && !IsSpace(core[0]) && !IsSpace(core[|core| - 1])
    ensures Trim(pad + core + pad2) == core
  {
    var s := pad + core + pad2;
    assert s == pad + (core + pad2);
    LeadingOfPadded(pad, core + pad2);
    assert s[|pad|..] == core + pad2;
    TrailingOfPadded(core, pad2);
    assert s[|pad|..|s| - |pad2|] == core;
  }

  /** `header?.split(' ')[1]?.trim()`: absent when there is no header or no second piece. */
  function Token(header: Option<string>): Option<string> {
    if header.None? then None
    else
      var parts := Split(header.value, ' ');
      if |parts| < 2 then None else Some(Trim(parts[1]))
  }

  /**
    `authorizeRequest(req)` with `header` the request's `Authorization`
    header and `apiKey` the configured key: a response to send back, or
    `None` to let the request through.
  */
  function AuthorizeRequest(header: Option<string>, apiKey: Option<string>): (r: Option<Response>)
    ensures r.None? ==> header.Some? && apiKey.Some? && apiKey.value != "" && Token(header) == apiKey
    ensures r.Some? ==> r.value in {UNAUTHORIZED, FORBIDDEN}
    ensures r == Some(UNAUTHORIZED) <==> Token(header).None? || Token(header) == Some("")
    ensures r == Some(FORBIDDEN) <==> Token(header).Some? && Token(header).value != "" && apiKey != Token(header)
    ensures r.None? <==> Token(header).Some? && Token(header).value != "" && apiKey == Token(header)
  {
    var token := Token(header);
    if token.None? || token.value == "" then Some(UNAUTHORIZED)
    else if apiKey != token then Some(FORBIDDEN)
    else None
  }

  /** A header `<scheme> <key>` passes exactly when the key is the configured one, padding aside. */
  lemma BearerHeader(scheme: string, pad: string, key: string, pad2: string, apiKey: Option<string>)
    requires ' ' !in scheme && ' ' !in pad && ' ' !in key && ' ' !in pad2
    requires AllSpace(pad) && AllSpace(pad2)
    requires key != [] && !IsSpace(key[0]) && !IsSpace(key[|key| - 1])
    ensures Token(Some(scheme + " " + pad + key + pad2)) == Some(key)
    ensures AuthorizeRequest(Some(scheme + " " + pad + key + pad2), apiKey) ==
      if apiKey == Some(key) then None else Some(FORBIDDEN)
  {
    var piece := pad + key + pad2;
    assert ' ' !in piece by {
      assert forall c :: c in piece ==> c in pad || c in key || c in pad2;
    }
    SplitJoin([scheme, piece], ' ');
    assert Join([scheme, piece], ' ') == scheme + " " + pad + key + pad2;
    TrimPadding(pad, key, pad2);
  }

  /** A header with no space has no second piece: 401, whatever the key. */
  lemma NoSpaceIsUnauthorized(header: string, apiKey: Option<string>)
    requires ' ' !in header
    ensures AuthorizeRequest(Some(header), apiKey) == Some(UNAUTHORIZED)
  {
    SplitJoin([header], ' ');
  }

  /** Two spaces after the scheme make the second piece empty: 401, even if the key follows. */
  lemma DoubleSpaceIsUnauthorized(scheme: string, rest: string, apiKey: Option<string>)
    requires ' ' !in scheme
    ensures AuthorizeRequest(Some(scheme + "  " + rest), apiKey) == Some(UNAUTHORIZED)
  {
    var tail := Split(rest, ' ');
    JoinSplit(rest, ' ');
    var parts := [scheme, []] + tail;
    assert forall k :: 0 <= k < |parts| ==> ' ' !in parts[k] by {
      assert forall k :: 2 <= k < |parts| ==> parts[k] == tail[k - 2];
    }
    SplitJoin(parts, ' ');
    assert parts[1..][1..] == tail;
    assert Join(parts, ' ') == scheme + "  " + rest;
    assert Trim([]) == [];
  }

  /** With no key configured every request is turned away. */
  lemma NoKeyAllowsNothing(header: Option<string>)
    ensures AuthorizeRequest(header, None).Some?
  {
  }

  /** The 401 check comes first: a request without a token gets 401 whatever the key is. */
  lemma UnauthorizedBeforeForbidden(header: Option<string>, key1: Option<string>, key2: Option<string>)
    requires AuthorizeRequest(header, key1) == Some(UNAUTHORIZED)
    ensures AuthorizeRequest(header, key2) == Some(UNAUTHORIZED)
  {
  }
}
